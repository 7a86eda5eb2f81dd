/** The top-down walk of os.walk as generate_directory_structure drives it:
    pre-order, with the subdirectories the caller removes from `subdirs`
    never entered. */
module Walk {
  import opened FileTree

  /** One step of the walk: the directory `dir`, reached from the root through
      the names `segs` (the segments of its relative path) and the child
      indices `at` (its position in the tree, which tells apart directories
      that have the same names). */
  datatype Visit = Visit(segs: seq<string>, at: seq<nat>, dir: Dir)

  /** The step that starts the walk. */
  function RootVisit(root: Dir): Visit {
    Visit([], [], root)
  }

  /** `c` is reached from `v` through the child `idx` (with idx >= lo), whose
      name is not in `ignore`. */
  ghost predicate ChildOf(v: Visit, c: Visit, lo: nat, ignore: seq<string>) {
    && |c.at| == |v.at| + 1
    && c.at[..|v.at|] == v.at
    && lo <= c.at[|v.at|] < |v.dir.subdirs|
    && c.dir == v.dir.subdirs[c.at[|v.at|]]
    && c.segs == v.segs + [c.dir.name]
    && c.dir.name !in ignore
  }

  /** The visit of the child `j` of `v`. */
  function ChildVisit(v: Visit, j: nat): Visit
    requires j < |v.dir.subdirs|
  {
    Visit(v.segs + [v.dir.subdirs[j].name], v.at + [j], v.dir.subdirs[j])
  }

  /** `subdirs[:] = [d for d in subdirs if d not in ignore_list]`, from the
      child `j` on: the subdirectories the walk goes on to enter, in order. */
  function ChildrenFrom(v: Visit, ignore: seq<string>, j: nat): seq<Visit>
    requires j <= |v.dir.subdirs|
    decreases |v.dir.subdirs| - j
  {
    if j == |v.dir.subdirs| then []
    else
      var rest := ChildrenFrom(v, ignore, j + 1);
      if v.dir.subdirs[j].name in ignore then rest else [ChildVisit(v, j)] + rest
  }

  /** The pruned list holds exactly the children whose names are not in the
      ignore list, in listing order. */
  lemma ChildrenFromFacts(v: Visit, ignore: seq<string>, j: nat)
    requires j <= |v.dir.subdirs|
    ensures var cs := ChildrenFrom(v, ignore, j);
      && (forall k :: 0 <= k < |cs| ==> ChildOf(v, cs[k], j, ignore))
      && (forall k, l :: 0 <= k < l < |cs| ==> |v.at| < |cs[k].at| && |v.at| < |cs[l].at| && cs[k].at[|v.at|] < cs[l].at[|v.at|])
      && (forall i :: j <= i < |v.dir.subdirs| && v.dir.subdirs[i].name !in ignore ==> ChildVisit(v, i) in cs)
  {
    ChildrenFromSound(v, ignore, j);
    ChildrenFromOrdered(v, ignore, j);
    ChildrenFromComplete(v, ignore, j);
  }

  lemma {:induction false} ChildrenFromSound(v: Visit, ignore: seq<string>, j: nat)
    requires j <= |v.dir.subdirs|
    ensures forall k :: 0 <= k < |ChildrenFrom(v, ignore, j)| ==> ChildOf(v, ChildrenFrom(v, ignore, j)[k], j, ignore)
    decreases |v.dir.subdirs| - j
  {
    if j < |v.dir.subdirs| {
      ChildrenFromSound(v, ignore, j + 1);
      var c := ChildVisit(v, j);
      assert c.at[..|v.at|] == v.at && c.at[|v.at|] == j;
      var rest := ChildrenFrom(v, ignore, j + 1);
      var head := if v.dir.subdirs[j].name in ignore then [] else [c];
      var cs := ChildrenFrom(v, ignore, j);
      assert cs == head + rest;
      forall k | 0 <= k < |cs| ensures ChildOf(v, cs[k], j, ignore) {
        if k < |head| {
          assert cs[k] == c;
        } else {
          assert cs[k] == rest[k - |head|];
          assert ChildOf(v, rest[k - |head|], j + 1, ignore);
        }
      }
    }
  }

  /** The child `c` of `v` comes before its sibling `d` in listing order. */
  ghost predicate Before(v: Visit, c: Visit, d: Visit) {
    |v.at| < |c.at| && |v.at| < |d.at| && c.at[|v.at|] < d.at[|v.at|]
  }

  /** `c` is a child of `v` through an index of at least `lo`. */
  ghost predicate IndexFrom(v: Visit, c: Visit, lo: nat) {
    |v.at| < |c.at| && lo <= c.at[|v.at|]
  }

  lemma {:induction false} ChildrenFromIndex(v: Visit, ignore: seq<string>, j: nat)
    requires j <= |v.dir.subdirs|
    ensures forall k :: 0 <= k < |ChildrenFrom(v, ignore, j)| ==> IndexFrom(v, ChildrenFrom(v, ignore, j)[k], j)
    decreases |v.dir.subdirs| - j
  {
    if j < |v.dir.subdirs| {
      ChildrenFromIndex(v, ignore, j + 1);
      var c := ChildVisit(v, j);
      assert |c.at| == |v.at| + 1 && c.at[|v.at|] == j;
      var rest := ChildrenFrom(v, ignore, j + 1);
      var head := if v.dir.subdirs[j].name in ignore then [] else [c];
      var cs := ChildrenFrom(v, ignore, j);
      assert cs == head + rest;
      forall k | 0 <= k < |cs| ensures IndexFrom(v, cs[k], j) {
        if k < |head| {
          assert cs[k] == c;
        } else {
          assert cs[k] == rest[k - |head|];
          assert IndexFrom(v, rest[k - |head|], j + 1);
        }
      }
    } else {
      assert ChildrenFrom(v, ignore, j) == [];
    }
  }

  /** The children in `cs` are in listing order. */
  ghost predicate InOrder(v: Visit, cs: seq<Visit>) {
    forall k, l :: 0 <= k < l < |cs| ==> Before(v, cs[k], cs[l])
  }

  lemma {:induction false} ChildrenFromOrdered(v: Visit, ignore: seq<string>, j: nat)
    requires j <= |v.dir.subdirs|
    ensures InOrder(v, ChildrenFrom(v, ignore, j))
    decreases |v.dir.subdirs| - j
  {
    if j < |v.dir.subdirs| {
      ChildrenFromOrdered(v, ignore, j + 1);
      ChildrenFromIndex(v, ignore, j + 1);
      var c := ChildVisit(v, j);
      var rest := ChildrenFrom(v, ignore, j + 1);
      if v.dir.subdirs[j].name in ignore {
        assert ChildrenFrom(v, ignore, j) == rest;
      } else {
        assert ChildrenFrom(v, ignore, j) == [c] + rest;
        assert |c.at| == |v.at| + 1 && c.at[|v.at|] == j;
        ConsInOrder(v, c, rest, j);
      }
    } else {
      assert ChildrenFrom(v, ignore, j) == [];
    }
  }

  lemma ConsInOrder(v: Visit, c: Visit, rest: seq<Visit>, j: nat)
    requires |v.at| < |c.at| && c.at[|v.at|] == j
    requires forall k :: 0 <= k < |rest| ==> IndexFrom(v, rest[k], j + 1)
    requires InOrder(v, rest)
    ensures InOrder(v, [c] + rest)
  {
    var cs := [c] + rest;
    forall k, l | 0 <= k < l < |cs| ensures Before(v, cs[k], cs[l]) {
      assert cs[l] == rest[l - 1];
      if k > 0 {
        assert cs[k] == rest[k - 1];
      }
    }
  }

  lemma {:induction false} ChildrenFromComplete(v: Visit, ignore: seq<string>, j: nat)
    requires j <= |v.dir.subdirs|
    ensures forall i :: j <= i < |v.dir.subdirs| && v.dir.subdirs[i].name !in ignore ==> ChildVisit(v, i) in ChildrenFrom(v, ignore, j)
    decreases |v.dir.subdirs| - j
  {
    if j < |v.dir.subdirs| {
      ChildrenFromComplete(v, ignore, j + 1);
      var rest := ChildrenFrom(v, ignore, j + 1);
      var head := if v.dir.subdirs[j].name in ignore then [] else [ChildVisit(v, j)];
      assert ChildrenFrom(v, ignore, j) == head + rest;
    }
  }

  function Children(v: Visit, ignore: seq<string>): seq<Visit> {
    ChildrenFrom(v, ignore, 0)
  }

  /** The number of directories under the visits `vs`, each counted with its
      whole subtree. */
  function SizeList(vs: seq<Visit>): nat {
    if vs == [] then 0 else Size(vs[0].dir) + SizeList(vs[1..])
  }

  lemma {:induction false} SizeListAppend(a: seq<Visit>, b: seq<Visit>)
    ensures SizeList(a + b) == SizeList(a) + SizeList(b)
  {
    if a == [] {
      assert a + b == b;
    } else {
      assert (a + b)[0] == a[0] && (a + b)[1..] == a[1..] + b;
      SizeListAppend(a[1..], b);
    }
  }

  /** Pruning never adds directories: the kept children of `v` from `j` on
      hold no more directories than all its children from `j` on. */
  lemma {:induction false} ChildrenSize(v: Visit, ignore: seq<string>, j: nat)
    requires j <= |v.dir.subdirs|
    ensures SizeList(ChildrenFrom(v, ignore, j)) <= SizeFrom(v.dir, j)
    decreases |v.dir.subdirs| - j
  {
    if j < |v.dir.subdirs| {
      ChildrenSize(v, ignore, j + 1);
      var rest := ChildrenFrom(v, ignore, j + 1);
      var c := ChildVisit(v, j);
      if v.dir.subdirs[j].name !in ignore {
        assert ChildrenFrom(v, ignore, j) == [c] + rest;
        assert ([c] + rest)[1..] == rest;
      }
    }
  }

  /** The walk from `v`: `v` itself, then the walks of its kept children in
      listing order. */
  function Visits(v: Visit, ignore: seq<string>): seq<Visit>
    decreases Size(v.dir), 0
  {
    ChildrenSize(v, ignore, 0);
    [v] + VisitsList(Children(v, ignore), ignore)
  }

  /** The walks from each of `vs` in turn. */
  function VisitsList(vs: seq<Visit>, ignore: seq<string>): seq<Visit>
    decreases SizeList(vs), 1
  {
    if vs == [] then [] else Visits(vs[0], ignore) + VisitsList(vs[1..], ignore)
  }

  lemma {:induction false} VisitsListAppend(a: seq<Visit>, b: seq<Visit>, ignore: seq<string>)
    ensures VisitsList(a + b, ignore) == VisitsList(a, ignore) + VisitsList(b, ignore)
  {
    if a == [] {
      assert a + b == b;
    } else {
      assert (a + b)[0] == a[0] && (a + b)[1..] == a[1..] + b;
      VisitsListAppend(a[1..], b, ignore);
    }
  }

  /** `w` lies in the subtree of `v`, on a path `q` from `v.dir` none of whose
      directories is named in `ignore`, and `w` records that position. */
  ghost predicate Descends(v: Visit, w: Visit, ignore: seq<string>) {
    && |v.at| <= |w.at|
    && w.at[..|v.at|] == v.at
    && var q := w.at[|v.at|..];
       && Survives(v.dir, q, ignore)
       && w.dir == NodeAt(v.dir, q)
       && w.segs == v.segs + NamesAlong(v.dir, q)
  }

  /** Descending to a kept child and then further is descending. */
  lemma DescendsThroughChild(v: Visit, c: Visit, w: Visit, ignore: seq<string>)
    requires ChildOf(v, c, 0, ignore) && Descends(c, w, ignore)
    ensures Descends(v, w, ignore)
  {
    var n := |v.at|;
    var j := c.at[n];
    var q' := w.at[n + 1..];
    assert c.at == v.at + [j];
    assert w.at[..n] == v.at;
    assert w.at[n..] == [j] + q';
    StepPath(v.dir, j, q', ignore);
  }

  /** Soundness of the walk: every visit lies under the start on a path that
      the pruning keeps, and records the names and indices of that path. */
  lemma {:induction false} VisitsSound(v: Visit, ignore: seq<string>)
    ensures forall w :: w in Visits(v, ignore) ==> Descends(v, w, ignore)
    decreases Size(v.dir), 0
  {
    ChildrenSize(v, ignore, 0);
    ChildrenFromFacts(v, ignore, 0);
    var cs := Children(v, ignore);
    VisitsListSound(cs, ignore);
    forall w | w in Visits(v, ignore) ensures Descends(v, w, ignore) {
      if w == v {
        assert v.at[|v.at|..] == [];
      } else {
        assert w in VisitsList(cs, ignore);
        var k :| 0 <= k < |cs| && Descends(cs[k], w, ignore);
        DescendsThroughChild(v, cs[k], w, ignore);
      }
    }
  }

  lemma {:induction false} VisitsListSound(vs: seq<Visit>, ignore: seq<string>)
    ensures forall w :: w in VisitsList(vs, ignore) ==> exists k :: 0 <= k < |vs| && Descends(vs[k], w, ignore)
    decreases SizeList(vs), 1
  {
    if vs != [] {
      VisitsSound(vs[0], ignore);
      VisitsListSound(vs[1..], ignore);
      forall w | w in VisitsList(vs, ignore) ensures exists k :: 0 <= k < |vs| && Descends(vs[k], w, ignore) {
        if w in Visits(vs[0], ignore) {
          assert Descends(vs[0], w, ignore);
        } else {
          assert w in VisitsList(vs[1..], ignore);
          var k :| 0 <= k < |vs[1..]| && Descends(vs[1..][k], w, ignore);
          assert vs[1..][k] == vs[k + 1];
        }
      }
    }
  }

  /** A visit in the walk from one of `vs` is in the walk of the whole list. */
  lemma {:induction false} VisitsListContains(vs: seq<Visit>, k: nat, w: Visit, ignore: seq<string>)
    requires k < |vs| && w in Visits(vs[k], ignore)
    ensures w in VisitsList(vs, ignore)
    decreases k
  {
    if k > 0 {
      assert vs[1..][k - 1] == vs[k];
      VisitsListContains(vs[1..], k - 1, w, ignore);
    }
  }

  /** Completeness of the walk: every directory under the start that the
      pruning keeps is visited, with its names and indices. */
  lemma {:induction false} VisitsComplete(v: Visit, q: seq<nat>, ignore: seq<string>)
    requires Survives(v.dir, q, ignore)
    ensures Visit(v.segs + NamesAlong(v.dir, q), v.at + q, NodeAt(v.dir, q)) in Visits(v, ignore)
    decreases |q|
  {
    if q == [] {
      assert v.segs + [] == v.segs && v.at + [] == v.at;
      assert Visits(v, ignore)[0] == v;
    } else {
      var j := q[0];
      var q' := q[1..];
      assert q == [j] + q';
      StepPath(v.dir, j, q', ignore);
      var c := ChildVisit(v, j);
      VisitsComplete(c, q', ignore);
      var w := Visit(c.segs + NamesAlong(c.dir, q'), c.at + q', NodeAt(c.dir, q'));
      assert w == Visit(v.segs + NamesAlong(v.dir, q), v.at + q, NodeAt(v.dir, q)) by {
        assert c.segs + NamesAlong(c.dir, q') == v.segs + ([c.dir.name] + NamesAlong(c.dir, q'));
        assert c.at + q' == v.at + ([j] + q');
      }
      ChildInWalk(v, j, w, ignore);
    }
  }

  /** A visit in the walk from a kept child is in the walk from the parent. */
  lemma ChildInWalk(v: Visit, j: nat, w: Visit, ignore: seq<string>)
    requires j < |v.dir.subdirs| && v.dir.subdirs[j].name !in ignore
    requires w in Visits(ChildVisit(v, j), ignore)
    ensures w in Visits(v, ignore)
  {
    var cs := Children(v, ignore);
    ChildrenFromFacts(v, ignore, 0);
    assert ChildVisit(v, j) in cs;
    var k :| 0 <= k < |cs| && cs[k] == ChildVisit(v, j);
    VisitsListContains(cs, k, w, ignore);
    ChildrenSize(v, ignore, 0);
    assert Visits(v, ignore) == [v] + VisitsList(cs, ignore);
  }

  /** No position is visited twice. */
  lemma {:induction false} VisitsDistinct(v: Visit, ignore: seq<string>)
    ensures forall i, k :: 0 <= i < k < |Visits(v, ignore)| ==> Visits(v, ignore)[i].at != Visits(v, ignore)[k].at
    decreases Size(v.dir), 0
  {
    ChildrenSize(v, ignore, 0);
    ChildrenFromFacts(v, ignore, 0);
    var cs := Children(v, ignore);
    var rest := VisitsList(cs, ignore);
    VisitsListDistinct(cs, |v.at| + 1, ignore);
    VisitsListSound(cs, ignore);
    var all := Visits(v, ignore);
    assert all == [v] + rest;
    forall i, k | 0 <= i < k < |all| ensures all[i].at != all[k].at {
      if i == 0 {
        var w := all[k];
        assert w == rest[k - 1];
        assert w in VisitsList(cs, ignore);
        var m :| 0 <= m < |cs| && Descends(cs[m], w, ignore);
        assert |w.at| >= |v.at| + 1;
      } else {
        assert all[i] == rest[i - 1] && all[k] == rest[k - 1];
      }
    }
  }

  /** The walks from visits at distinct positions of one depth `n` visit no
      position twice. */
  lemma {:induction false} VisitsListDistinct(vs: seq<Visit>, n: nat, ignore: seq<string>)
    requires forall k :: 0 <= k < |vs| ==> |vs[k].at| == n
    requires forall k, l :: 0 <= k < l < |vs| ==> vs[k].at != vs[l].at
    ensures forall i, k :: 0 <= i < k < |VisitsList(vs, ignore)| ==> VisitsList(vs, ignore)[i].at != VisitsList(vs, ignore)[k].at
    decreases SizeList(vs), 1
  {
    if vs != [] {
      var head := Visits(vs[0], ignore);
      var tail := VisitsList(vs[1..], ignore);
      VisitsDistinct(vs[0], ignore);
      VisitsListDistinct(vs[1..], n, ignore);
      VisitsSound(vs[0], ignore);
      VisitsListSound(vs[1..], ignore);
      var all := VisitsList(vs, ignore);
      assert all == head + tail;
      forall i, k | 0 <= i < k < |all| ensures all[i].at != all[k].at {
        if k < |head| {
          assert all[i] == head[i] && all[k] == head[k];
        } else if i >= |head| {
          assert all[i] == tail[i - |head|] && all[k] == tail[k - |head|];
        } else {
          var w1, w2 := head[i], tail[k - |head|];
          assert all[i] == w1 && all[k] == w2;
          assert w1 in head;
          assert Descends(vs[0], w1, ignore);
          assert w2 in VisitsList(vs[1..], ignore);
          var m :| 0 <= m < |vs[1..]| && Descends(vs[1..][m], w2, ignore);
          assert vs[1..][m] == vs[m + 1];
          assert w1.at[..n] == vs[0].at;
          assert w2.at[..n] == vs[m + 1].at;
        }
      }
    }
  }

  /** One iteration of os.walk's loop: the directory on top of the stack is
      done and its kept subdirectories replace it, first one on top; the
      pending walk is unchanged (StackShrinks: the stack holds fewer
      directories). */
  lemma WalkStep(done: seq<Visit>, stack: seq<Visit>, ignore: seq<string>)
    requires stack != []
    ensures (done + [stack[0]]) + VisitsList(Children(stack[0], ignore) + stack[1..], ignore)
            == done + VisitsList(stack, ignore)
  {
    var current, subdirs, rest := stack[0], Children(stack[0], ignore), stack[1..];
    VisitsListAppend(subdirs, rest, ignore);
    VisitsListCons(stack, ignore);
    VisitsUnfold(current, ignore);
    Regroup(done, current, VisitsList(subdirs, ignore), VisitsList(rest, ignore));
  }

  lemma Regroup(done: seq<Visit>, current: Visit, a: seq<Visit>, b: seq<Visit>)
    ensures (done + [current]) + (a + b) == done + (([current] + a) + b)
  {
  }

  lemma StackShrinks(stack: seq<Visit>, ignore: seq<string>)
    requires stack != []
    ensures SizeList(Children(stack[0], ignore) + stack[1..]) < SizeList(stack)
  {
    ChildrenSize(stack[0], ignore, 0);
    SizeListAppend(Children(stack[0], ignore), stack[1..]);
  }

  lemma VisitsListCons(stack: seq<Visit>, ignore: seq<string>)
    requires stack != []
    ensures VisitsList(stack, ignore) == Visits(stack[0], ignore) + VisitsList(stack[1..], ignore)
  {
  }

  lemma VisitsUnfold(v: Visit, ignore: seq<string>)
    ensures Visits(v, ignore) == [v] + VisitsList(Children(v, ignore), ignore)
  {
  }

  /** The whole walk from the root: it starts at the root, visits only
      directories that the pruning keeps, each at most once, and all of them. */
  lemma RootWalk(root: Dir, ignore: seq<string>)
    ensures var vs := Visits(RootVisit(root), ignore);
      && |vs| >= 1 && vs[0] == RootVisit(root)
      && (forall i :: 0 <= i < |vs| ==>
            && Survives(root, vs[i].at, ignore)
            && vs[i].dir == NodeAt(root, vs[i].at)
            && vs[i].segs == NamesAlong(root, vs[i].at))
      && (forall i, k :: 0 <= i < k < |vs| ==> vs[i].at != vs[k].at)
      && (forall p :: Survives(root, p, ignore) ==> exists i :: 0 <= i < |vs| && vs[i].at == p)
  {
    var rv := RootVisit(root);
    var vs := Visits(rv, ignore);
    VisitsUnfold(rv, ignore);
    VisitsSound(rv, ignore);
    VisitsDistinct(rv, ignore);
    forall i | 0 <= i < |vs|
      ensures && Survives(root, vs[i].at, ignore)
              && vs[i].dir == NodeAt(root, vs[i].at)
              && vs[i].segs == NamesAlong(root, vs[i].at)
    {
      assert vs[i] in vs;
      assert Descends(rv, vs[i], ignore);
      assert vs[i].at[|rv.at|..] == vs[i].at;
      assert rv.segs + NamesAlong(root, vs[i].at) == NamesAlong(root, vs[i].at);
    }
    forall p | Survives(root, p, ignore) ensures exists i :: 0 <= i < |vs| && vs[i].at == p {
      VisitsComplete(rv, p, ignore);
      var w := Visit(rv.segs + NamesAlong(root, p), rv.at + p, NodeAt(root, p));
      assert rv.at + p == p;
      var i :| 0 <= i < |vs| && vs[i] == w;
    }
  }
}
