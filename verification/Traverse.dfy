/** `traverse`, which visits a tree in depth-first order, and what its visits say about the tree. */
module Traversal {
  import opened Bytes
  import opened Json
  import opened Integers
  import opened Paths

  /** One call of the visitor. */
  datatype Visit = Visit(path: Path, val: Value)

  /** `value::empty`. */
  predicate IsEmpty(v: Value) {
    match v
    case Obj(ms) => ms == []
    case Arr(items) => items == []
    case Str(s) => s == []
    case Null => true
    case _ => false
  }

  predicate IsLeaf(v: Value) { IsEmpty(v) || !IsContainer(v) }

  /** Visits seen from above. */
  function Below(base: Path, vs: seq<Visit>): (r: seq<Visit>)
    ensures |r| == |vs| && forall i :: 0 <= i < |r| ==> r[i] == Visit(base + vs[i].path, vs[i].val)
  {
    seq(|vs|, i requires 0 <= i < |vs| => Visit(base + vs[i].path, vs[i].val))
  }

  /** The visits to a tree, in order, by path from its root. */
  function Visits(v: Value, leavesOnly: bool): seq<Visit>
    decreases v, 1
  {
    (if !leavesOnly || IsLeaf(v) then [Visit([], v)] else []) + Inside(v, leavesOnly)
  }

  /** The visits to what a container holds. */
  function Inside(v: Value, leavesOnly: bool): seq<Visit>
    decreases v, 0
  {
    match v
    case Obj(ms) => MemberVisits(ms, leavesOnly)
    case Arr(items) => ItemVisits(items, 0, leavesOnly)
    case _ => []
  }

  function ItemVisits(items: seq<Value>, from: nat, leavesOnly: bool): seq<Visit>
    requires from <= |items|
    decreases items, 0, |items| - from
  {
    if from == |items| then []
    else Below([Index(from)], Visits(items[from], leavesOnly)) + ItemVisits(items, from + 1, leavesOnly)
  }

  function MemberVisits(ms: seq<Member>, leavesOnly: bool): seq<Visit>
    decreases ms, 0
  {
    if ms == [] then []
    else
      assert ms[0].val < ms[0];
      Below([Key(ms[0].key)], Visits(ms[0].val, leavesOnly)) + MemberVisits(ms[1..], leavesOnly)
  }

  // ---- the method -----------------------------------------------------------------------------------------------

  /** A visitor that records its calls. */
  class Recorder {
    var log: seq<Visit>

    constructor ()
      ensures log == []
    {
      log := [];
    }

    method Call(path: Path, val: Value)
      modifies this
      ensures log == old(log) + [Visit(path, val)]
    {
      log := log + [Visit(path, val)];
    }

    /** `traverse`, calling this visitor. */
    method Traverse(tree: Value, base: Path, leavesOnly: bool)
      modifies this
      ensures log == old(log) + Below(base, Visits(tree, leavesOnly))
      decreases tree
    {
      hide Visits, ItemVisits, MemberVisits, Below;
      ghost var goal := log + Below(base, Visits(tree, leavesOnly));
      HeadFirst(log, tree, base, leavesOnly);
      if !leavesOnly || IsEmpty(tree) || !(tree.Arr? || tree.Obj?) {
        Call(base, tree);
      }
      if tree.Obj? {
        var ms := tree.members;
        var i := 0;
        assert ms[0..] == ms;
        while i < |ms|
          invariant 0 <= i <= |ms|
          invariant log + Below(base, MemberVisits(ms[i..], leavesOnly)) == goal
        {
          assert ms[i].val < ms[i];
          MemberVisitsStep(log, ms[i..], base, leavesOnly);
          assert ms[i..][1..] == ms[i + 1..];
          Traverse(ms[i].val, base + [Key(ms[i].key)], leavesOnly);
          i := i + 1;
        }
        assert ms[i..] == [];
        NoMembers(leavesOnly);
      } else if tree.Arr? {
        var items := tree.items;
        var idx := 0;
        while idx < |items|
          invariant 0 <= idx <= |items|
          invariant log + Below(base, ItemVisits(items, idx, leavesOnly)) == goal
        {
          ItemVisitsStep(log, items, idx, base, leavesOnly);
          Traverse(items[idx], base + [Index(idx)], leavesOnly);
          idx := idx + 1;
        }
        NoMoreItems(items, leavesOnly);
      }
      NothingBelow(base, log);
    }
  }

  lemma NothingBelow(base: Path, log: seq<Visit>)
    ensures log + Below(base, []) == log
  {
  }

  lemma HeadFirst(log: seq<Visit>, v: Value, base: Path, leavesOnly: bool)
    ensures log + Below(base, Visits(v, leavesOnly))
         == (if !leavesOnly || IsLeaf(v) then log + [Visit(base, v)] else log) + Below(base, Inside(v, leavesOnly))
  {
    var head := if !leavesOnly || IsLeaf(v) then [Visit([], v)] else [];
    assert base + [] == base;
    BelowConcat(base, head, Inside(v, leavesOnly));
  }

  lemma VisitsParts(v: Value, leavesOnly: bool)
    ensures Visits(v, leavesOnly)
         == (if !leavesOnly || IsLeaf(v) then [Visit([], v)] else []) + Inside(v, leavesOnly)
  {
    hide ItemVisits, MemberVisits;
  }

  lemma BelowConcat(base: Path, a: seq<Visit>, b: seq<Visit>)
    ensures Below(base, a + b) == Below(base, a) + Below(base, b)
  {
  }

  lemma BelowStep(base: Path, step: Step, vs: seq<Visit>)
    ensures Below(base, Below([step], vs)) == Below(base + [step], vs)
  {
    assert forall i :: 0 <= i < |vs| ==> base + ([step] + vs[i].path) == (base + [step]) + vs[i].path;
  }

  lemma MemberVisitsStep(log: seq<Visit>, ms: seq<Member>, base: Path, leavesOnly: bool)
    requires ms != []
    ensures log + Below(base, MemberVisits(ms, leavesOnly))
         == log + Below(base + [Key(ms[0].key)], Visits(ms[0].val, leavesOnly))
            + Below(base, MemberVisits(ms[1..], leavesOnly))
  {
    hide Visits, Below;
    BelowStep(base, Key(ms[0].key), Visits(ms[0].val, leavesOnly));
    BelowConcat(base, Below([Key(ms[0].key)], Visits(ms[0].val, leavesOnly)), MemberVisits(ms[1..], leavesOnly));
  }

  lemma NoMembers(leavesOnly: bool)
    ensures MemberVisits([], leavesOnly) == []
  {
  }

  lemma ItemVisitsStep(log: seq<Visit>, items: seq<Value>, from: nat, base: Path, leavesOnly: bool)
    requires from < |items|
    ensures log + Below(base, ItemVisits(items, from, leavesOnly))
         == log + Below(base + [Index(from)], Visits(items[from], leavesOnly))
            + Below(base, ItemVisits(items, from + 1, leavesOnly))
  {
    hide Visits, Below;
    BelowStep(base, Index(from), Visits(items[from], leavesOnly));
    BelowConcat(base, Below([Index(from)], Visits(items[from], leavesOnly)), ItemVisits(items, from + 1, leavesOnly));
  }

  lemma NoMoreItems(items: seq<Value>, leavesOnly: bool)
    ensures ItemVisits(items, |items|, leavesOnly) == []
  {
  }

  // ---- exactly the paths that resolve ---------------------------------------------------------------------------

  /** Which visits below a step are these? */
  lemma BelowMember(step: Step, vs: seq<Visit>, p: Path, x: Value)
    ensures Visit(p, x) in Below([step], vs) <==> p != [] && p[0] == step && Visit(p[1..], x) in vs
  {
    var r := Below([step], vs);
    if p != [] && p[0] == step && Visit(p[1..], x) in vs {
      var i :| 0 <= i < |vs| && vs[i] == Visit(p[1..], x);
      assert [step] + p[1..] == p;
      assert r[i] == Visit(p, x);
    }
    if Visit(p, x) in r {
      var i :| 0 <= i < |r| && r[i] == Visit(p, x);
      assert p[1..] == vs[i].path;
      assert vs[i] in vs;
    }
  }

  lemma ItemVisitsSplit(items: seq<Value>, n: nat, leavesOnly: bool)
    requires n < |items|
    ensures ItemVisits(items, n, leavesOnly)
         == Below([Index(n)], Visits(items[n], leavesOnly)) + ItemVisits(items, n + 1, leavesOnly)
  {
    hide Visits, Below;
  }

  lemma MemberVisitsSplit(ms: seq<Member>, leavesOnly: bool)
    requires ms != []
    ensures MemberVisits(ms, leavesOnly)
         == Below([Key(ms[0].key)], Visits(ms[0].val, leavesOnly)) + MemberVisits(ms[1..], leavesOnly)
  {
    hide Visits, Below;
  }

  lemma {:induction false} ItemVisited(items: seq<Value>, from: nat, leavesOnly: bool, p: Path, x: Value)
    requires from <= |items|
    ensures Visit(p, x) in ItemVisits(items, from, leavesOnly) <==>
      && p != [] && p[0].Index? && from <= p[0].index < |items|
      && Visit(p[1..], x) in Visits(items[p[0].index], leavesOnly)
    decreases |items| - from
  {
    hide Visits, Below, ItemVisits;
    if from == |items| {
      NoMoreItems(items, leavesOnly);
    } else {
      ItemVisitsSplit(items, from, leavesOnly);
      BelowMember(Index(from), Visits(items[from], leavesOnly), p, x);
      ItemVisited(items, from + 1, leavesOnly, p, x);
    }
  }

  lemma {:induction false} MemberVisited(ms: seq<Member>, leavesOnly: bool, p: Path, x: Value)
    requires Sorted(ms)
    ensures Visit(p, x) in MemberVisits(ms, leavesOnly) <==>
      && p != [] && p[0].Key? && Find(ms, p[0].key).Some?
      && Visit(p[1..], x) in Visits(Find(ms, p[0].key).value, leavesOnly)
  {
    hide Visits, Below, MemberVisits;
    if ms == [] {
      NoMembers(leavesOnly);
    } else {
      MemberVisitsSplit(ms, leavesOnly);
      BelowMember(Key(ms[0].key), Visits(ms[0].val, leavesOnly), p, x);
      MemberVisited(ms[1..], leavesOnly, p, x);
      AboveIsAbsent(ms[0].key, ms[1..]);
    }
  }

  /** `traverse` visits exactly what `at_path` reaches, under the same path; leaves only if asked to. */
  lemma {:induction false} VisitedIffReached(v: Value, leavesOnly: bool, p: Path, x: Value)
    requires WellFormed(v)
    ensures Visit(p, x) in Visits(v, leavesOnly) <==> AtPath(v, p) == Found(x) && (leavesOnly ==> IsLeaf(x))
    decreases |p|
  {
    hide Visits, ItemVisits, MemberVisits, AtPath;
    VisitsParts(v, leavesOnly);
    if v.Arr? {
      ItemVisited(v.items, 0, leavesOnly, p, x);
    } else if v.Obj? {
      MemberVisited(v.members, leavesOnly, p, x);
    }
    if p == [] {
      AtRoot(v);
    } else {
      AtPathStep(v, p);
      if Child(v, p[0]).Some? {
        ChildIsWellFormed(v, p[0]);
        VisitedIffReached(Child(v, p[0]).value, leavesOnly, p[1..], x);
      }
    }
  }

  lemma AtRoot(v: Value)
    ensures AtPath(v, []) == Found(v)
  {
  }

  ghost predicate NoPathTwice(vs: seq<Visit>) { forall i, j :: 0 <= i < j < |vs| ==> vs[i].path != vs[j].path }

  lemma BelowIsDistinct(step: Step, vs: seq<Visit>)
    requires NoPathTwice(vs)
    ensures NoPathTwice(Below([step], vs))
  {
    forall i, j | 0 <= i < j < |vs| ensures [step] + vs[i].path != [step] + vs[j].path {
      assert ([step] + vs[i].path)[1..] == vs[i].path && ([step] + vs[j].path)[1..] == vs[j].path;
    }
  }

  lemma ConcatIsDistinct(step: Step, vs: seq<Visit>, rest: seq<Visit>)
    requires NoPathTwice(vs) && NoPathTwice(rest)
    requires forall i :: 0 <= i < |rest| ==> rest[i].path != [] && rest[i].path[0] != step
    ensures NoPathTwice(Below([step], vs) + rest)
  {
    BelowIsDistinct(step, vs);
    var a := Below([step], vs);
    forall i, j | 0 <= i < j < |a + rest| ensures (a + rest)[i].path != (a + rest)[j].path {
      if i < |a| <= j {
        assert a[i].path[0] == step;
      }
    }
  }

  lemma {:induction false} ItemVisitsDistinct(items: seq<Value>, from: nat, leavesOnly: bool)
    requires from <= |items| && forall i :: 0 <= i < |items| ==> WellFormed(items[i])
    ensures NoPathTwice(ItemVisits(items, from, leavesOnly))
    decreases items, 0, |items| - from
  {
    hide Visits, Below, NoPathTwice, WellFormed;
    if from == |items| {
      NothingTwice();
    } else {
      EachPathOnce(items[from], leavesOnly);
      ItemVisitsDistinct(items, from + 1, leavesOnly);
      var rest := ItemVisits(items, from + 1, leavesOnly);
      forall i | 0 <= i < |rest| ensures rest[i].path != [] && rest[i].path[0] != Index(from) {
        ItemVisited(items, from + 1, leavesOnly, rest[i].path, rest[i].val);
        assert rest[i] == Visit(rest[i].path, rest[i].val);
      }
      ConcatIsDistinct(Index(from), Visits(items[from], leavesOnly), rest);
    }
  }

  lemma NothingTwice()
    ensures NoPathTwice([])
  {
  }

  lemma {:induction false} MemberVisitsDistinct(ms: seq<Member>, leavesOnly: bool)
    requires Sorted(ms) && forall i :: 0 <= i < |ms| ==> WellFormed(ms[i].val)
    ensures NoPathTwice(MemberVisits(ms, leavesOnly))
    decreases ms, 0
  {
    hide Visits, Below, NoPathTwice, WellFormed;
    if ms == [] {
      NothingTwice();
    } else {
      assert ms[0].val < ms[0];
      EachPathOnce(ms[0].val, leavesOnly);
      MemberVisitsDistinct(ms[1..], leavesOnly);
      var rest := MemberVisits(ms[1..], leavesOnly);
      AboveIsAbsent(ms[0].key, ms[1..]);
      forall i | 0 <= i < |rest| ensures rest[i].path != [] && rest[i].path[0] != Key(ms[0].key) {
        MemberVisited(ms[1..], leavesOnly, rest[i].path, rest[i].val);
        assert rest[i] == Visit(rest[i].path, rest[i].val);
      }
      ConcatIsDistinct(Key(ms[0].key), Visits(ms[0].val, leavesOnly), rest);
    }
  }

  /** No path is visited twice. */
  lemma {:induction false} EachPathOnce(v: Value, leavesOnly: bool)
    requires WellFormed(v)
    ensures NoPathTwice(Visits(v, leavesOnly))
    decreases v, 1
  {
    hide ItemVisits, MemberVisits, Visits, Sorted;
    VisitsParts(v, leavesOnly);
    var inside := Inside(v, leavesOnly);
    if v.Arr? {
      ItemVisitsDistinct(v.items, 0, leavesOnly);
    } else if v.Obj? {
      MemberVisitsDistinct(v.members, leavesOnly);
    }
    forall i | 0 <= i < |inside| ensures inside[i].path != [] {
      assert inside[i] == Visit(inside[i].path, inside[i].val);
      if v.Arr? {
        ItemVisited(v.items, 0, leavesOnly, inside[i].path, inside[i].val);
      } else {
        MemberVisited(v.members, leavesOnly, inside[i].path, inside[i].val);
      }
    }
  }

  // ---- rebuilding the tree --------------------------------------------------------------------------------------

  /** `t.path(p) = x` for one visit after another; None if one of them throws. */
  function Rebuild(vs: seq<Visit>, t: Value): Option<Value> {
    if vs == [] then Some(t)
    else
      var r := Write(t, vs[0].path, vs[0].val);
      if r.access.Found? then Rebuild(vs[1..], r.tree) else None
  }

  lemma {:induction false} RebuildConcat(a: seq<Visit>, b: seq<Visit>, t: Value)
    ensures Rebuild(a + b, t) == match Rebuild(a, t) case Some(u) => Rebuild(b, u) case None => None
  {
    hide Write;
    if a == [] {
      assert a + b == b;
    } else {
      assert (a + b)[1..] == a[1..] + b;
      RebuildConcat(a[1..], b, Write(t, a[0].path, a[0].val).tree);
    }
  }

  /** Writing below a child rebuilds that child. */
  lemma {:induction false} RebuildBelow(step: Step, vs: seq<Visit>, t: Value, w: Value)
    requires vs != [] && Admits(t, step) && w == (if Child(t, step).Some? then t else CreateMissing(t, step))
    requires Child(w, step).Some?
    ensures Rebuild(Below([step], vs), t) ==
      match Rebuild(vs, Child(w, step).value)
      case Some(d) => Some(WithChild(w, step, d))
      case None => None
    decreases |vs|
  {
    hide Write, CreateMissing, Child, WithChild;
    var p := [step] + vs[0].path;
    var c := Child(w, step).value;
    assert p[1..] == vs[0].path;
    WriteStep(t, p, vs[0].val);
    var r := Write(c, vs[0].path, vs[0].val);
    var t2 := WithChild(w, step, r.tree);
    assert Below([step], vs)[1..] == Below([step], vs[1..]);
    ChildOfWith(w, step, r.tree, step);
    if r.access.Found? {
      if |vs| == 1 {
        assert vs[1..] == [];
      } else {
        ChildIsAccepted(t2, step);
        RebuildBelow(step, vs[1..], t2, t2);
        forall d ensures WithChild(t2, step, d) == WithChild(w, step, d) {
          WithTwice(w, step, r.tree, d);
        }
      }
    }
  }

  /** Every array has fewer items than a `size_t` can count. */
  ghost predicate Addressable(v: Value) {
    match v
    case Arr(items) => |items| < TWO_TO_THE_64 && forall i :: 0 <= i < |items| ==> Addressable(items[i])
    case Obj(ms) => forall i :: 0 <= i < |ms| ==> Addressable(ms[i].val)
    case _ => true
  }

  lemma {:induction false} SomethingIsVisited(v: Value)
    ensures Visits(v, true) != []
    decreases v
  {
    if v.Arr? && v.items != [] {
      SomethingIsVisited(v.items[0]);
      ItemVisitsSplit(v.items, 0, true);
    } else if v.Obj? && v.members != [] {
      assert v.members[0].val < v.members[0];
      SomethingIsVisited(v.members[0].val);
      MemberVisitsSplit(v.members, true);
    }
  }

  /** Start from null, assign to the path of every leaf what was there, and the tree is back. */
  lemma {:induction false} LeavesRebuild(v: Value)
    requires WellFormed(v) && Addressable(v)
    ensures Rebuild(Visits(v, true), Null) == Some(v)
    decreases v, 1
  {
    hide ItemVisits, MemberVisits, Visits, Sorted, Rebuild;
    VisitsParts(v, true);
    if IsLeaf(v) {
      LeafVisits(v);
      OneWrite(v);
    } else {
      assert Visits(v, true) == Inside(v, true);
      if v.Arr? {
        ItemsRebuild(v.items, 0);
      } else {
        assert v.members[0..] == v.members;
        MembersRebuild(v.members, 0);
      }
    }
  }

  lemma LeafVisits(v: Value)
    requires IsLeaf(v)
    ensures Visits(v, true) == [Visit([], v)]
  {
  }

  lemma OneWrite(v: Value)
    ensures Rebuild([Visit([], v)], Null) == Some(v)
  {
    hide Write;
    var vs := [Visit([], v)];
    WriteHere(Null, v);
    assert vs[1..] == [];
  }

  /** The tree once the first `n` items are there. */
  function ArrayUpTo(items: seq<Value>, n: nat): Value
    requires n <= |items|
  {
    if n == 0 then Null else Arr(items[..n])
  }

  lemma ArrayGrows(items: seq<Value>, n: nat)
    requires n < |items| < TWO_TO_THE_64
    ensures var t := ArrayUpTo(items, n);
      && Admits(t, Index(n)) && Child(t, Index(n)).None?
      && Child(CreateMissing(t, Index(n)), Index(n)) == Some(Null)
      && WithChild(CreateMissing(t, Index(n)), Index(n), items[n]) == ArrayUpTo(items, n + 1)
  {
    var t := ArrayUpTo(items, n);
    CreatedChild(t, Index(n), Index(n));
    assert WithChild(CreateMissing(t, Index(n)), Index(n), items[n]).items == items[..n + 1];
  }

  lemma {:induction false} ItemsRebuild(items: seq<Value>, n: nat)
    requires n <= |items| < TWO_TO_THE_64 && items != []
    requires forall i :: 0 <= i < |items| ==> WellFormed(items[i]) && Addressable(items[i])
    ensures Rebuild(ItemVisits(items, n, true), ArrayUpTo(items, n)) == Some(Arr(items))
    decreases items, 0, |items| - n
  {
    hide Visits, Below, Rebuild, WellFormed, Addressable, CreateMissing, Child, WithChild, Admits, ItemVisits;
    hide ArrayUpTo;
    if n == |items| {
      NoMoreItems(items, true);
      AllItems(items);
    } else {
      var t := ArrayUpTo(items, n);
      LeavesRebuild(items[n]);
      SomethingIsVisited(items[n]);
      ArrayGrows(items, n);
      RebuildBelow(Index(n), Visits(items[n], true), t, CreateMissing(t, Index(n)));
      ItemsRebuild(items, n + 1);
      RebuildConcat(Below([Index(n)], Visits(items[n], true)), ItemVisits(items, n + 1, true), t);
      ItemVisitsSplit(items, n, true);
    }
  }

  lemma AllItems(items: seq<Value>)
    requires items != []
    ensures Rebuild([], ArrayUpTo(items, |items|)) == Some(Arr(items))
  {
    assert items[..|items|] == items;
  }

  function ObjectUpTo(ms: seq<Member>, n: nat): Value
    requires n <= |ms|
  {
    if n == 0 then Null else Obj(ms[..n])
  }

  lemma NextMember(ms: seq<Member>, n: nat)
    requires n < |ms| && Sorted(ms)
    ensures Find(ms[..n], ms[n].key) == None
    ensures Put(ms[..n], ms[n].key, ms[n].val) == ms[..n + 1]
    ensures Put(Put(ms[..n], ms[n].key, Null), ms[n].key, ms[n].val) == ms[..n + 1]
  {
    hide Put, Find, Sorted;
    forall i | 0 <= i < n ensures CompareBytes(ms[..n][i].key, ms[n].key) < 0 {
      SortedPair(ms, i, n);
    }
    PutLast(ms[..n], ms[n].key, ms[n].val);
    PutPut(ms[..n], ms[n].key, Null, ms[n].val);
    assert ms[..n + 1] == ms[..n] + [Member(ms[n].key, ms[n].val)];
  }

  lemma ObjectGrows(ms: seq<Member>, n: nat)
    requires n < |ms| && Sorted(ms)
    ensures var (t, k) := (ObjectUpTo(ms, n), Key(ms[n].key));
      && Admits(t, k) && Child(t, k).None?
      && Child(CreateMissing(t, k), k) == Some(Null)
      && WithChild(CreateMissing(t, k), k, ms[n].val) == ObjectUpTo(ms, n + 1)
  {
    hide Put, Find, Sorted;
    var t, k := ObjectUpTo(ms, n), Key(ms[n].key);
    NextMember(ms, n);
    assert n == 0 ==> ms[..n] == [];
    NoChildren(k);
    CreatedChild(t, k, k);
  }

  lemma {:induction false} MembersRebuild(ms: seq<Member>, n: nat)
    requires n <= |ms| && ms != [] && Sorted(ms)
    requires forall i :: 0 <= i < |ms| ==> WellFormed(ms[i].val) && Addressable(ms[i].val)
    ensures Rebuild(MemberVisits(ms[n..], true), ObjectUpTo(ms, n)) == Some(Obj(ms))
    decreases ms, 0, |ms| - n
  {
    hide Visits, Below, Rebuild, WellFormed, Addressable, CreateMissing, Child, WithChild, Admits;
    hide MemberVisits, ObjectUpTo;
    if n == |ms| {
      NoMembers(true);
      AllMembers(ms);
    } else {
      var t, k := ObjectUpTo(ms, n), Key(ms[n].key);
      assert ms[n].val < ms[n];
      LeavesRebuild(ms[n].val);
      SomethingIsVisited(ms[n].val);
      ObjectGrows(ms, n);
      RebuildBelow(k, Visits(ms[n].val, true), t, CreateMissing(t, k));
      MembersRebuild(ms, n + 1);
      RebuildConcat(Below([k], Visits(ms[n].val, true)), MemberVisits(ms[n + 1..], true), t);
      MemberVisitsSplit(ms[n..], true);
      assert ms[n..][1..] == ms[n + 1..];
    }
  }

  lemma AllMembers(ms: seq<Member>)
    requires ms != []
    ensures Rebuild([], ObjectUpTo(ms, |ms|)) == Some(Obj(ms))
  {
    assert ms[..|ms|] == ms;
  }

  // ---- the order of the visits ----------------------------------------------------------------------------------

  /** Indexes count up, and keys are in byte order. */
  predicate StepBefore(a: Step, b: Step) {
    || (a.Index? && b.Index? && a.index < b.index)
    || (a.Key? && b.Key? && CompareBytes(a.key, b.key) < 0)
  }

  /** A path comes before what is below it, and before what is below a later step. */
  predicate PathBefore(p: Path, q: Path) {
    if q == [] then false
    else if p == [] then true
    else if p[0] == q[0] then PathBefore(p[1..], q[1..])
    else StepBefore(p[0], q[0])
  }

  ghost predicate InOrder(vs: seq<Visit>) {
    forall i, j :: 0 <= i < j < |vs| ==> PathBefore(vs[i].path, vs[j].path)
  }

  lemma InOrderBelow(step: Step, vs: seq<Visit>)
    requires InOrder(vs)
    ensures InOrder(Below([step], vs))
  {
    var r := Below([step], vs);
    forall i, j | 0 <= i < j < |r| ensures PathBefore(r[i].path, r[j].path) {
      assert r[i].path[1..] == vs[i].path && r[j].path[1..] == vs[j].path;
    }
  }

  lemma InOrderConcat(a: seq<Visit>, b: seq<Visit>)
    requires InOrder(a) && InOrder(b)
    requires forall i, j :: 0 <= i < |a| && 0 <= j < |b| ==> PathBefore(a[i].path, b[j].path)
    ensures InOrder(a + b)
  {
    hide PathBefore;
  }

  /** Every visit starts with an index from here on. */
  ghost predicate StartAt(vs: seq<Visit>, from: nat) {
    forall i :: 0 <= i < |vs| ==> vs[i].path != [] && vs[i].path[0].Index? && vs[i].path[0].index >= from
  }

  /** Every visit starts with one of these keys. */
  ghost predicate StartIn(vs: seq<Visit>, ms: seq<Member>) {
    forall i :: 0 <= i < |vs| ==>
      vs[i].path != [] && vs[i].path[0].Key? && exists k :: 0 <= k < |ms| && ms[k].key == vs[i].path[0].key
  }

  /** `traverse` goes depth first: a value before what it holds, and what it holds in turn. */
  lemma {:induction false} VisitsAreInOrder(v: Value, leavesOnly: bool)
    requires WellFormed(v)
    ensures InOrder(Visits(v, leavesOnly))
    decreases v, 1
  {
    hide Visits, ItemVisits, MemberVisits, InOrder, Sorted;
    VisitsParts(v, leavesOnly);
    var head := if !leavesOnly || IsLeaf(v) then [Visit([], v)] else [];
    assert InOrder(head) by { OneInOrder(v); }
    match v
    case Arr(items) =>
      ItemVisitsInOrder(items, 0, leavesOnly);
      InOrderConcat(head, Inside(v, leavesOnly));
    case Obj(ms) =>
      MemberVisitsInOrder(ms, leavesOnly);
      InOrderConcat(head, Inside(v, leavesOnly));
    case _ =>
      assert head + [] == head;
  }

  lemma OneInOrder(v: Value)
    ensures InOrder([]) && InOrder([Visit([], v)])
  {
  }

  lemma {:induction false} ItemVisitsInOrder(items: seq<Value>, from: nat, leavesOnly: bool)
    requires from <= |items| && forall i :: 0 <= i < |items| ==> WellFormed(items[i])
    ensures InOrder(ItemVisits(items, from, leavesOnly)) && StartAt(ItemVisits(items, from, leavesOnly), from)
    decreases items, 0, |items| - from
  {
    hide Visits, InOrder, WellFormed;
    if from == |items| {
      OneInOrder(Null);
    } else {
      var first := Below([Index(from)], Visits(items[from], leavesOnly));
      var rest := ItemVisits(items, from + 1, leavesOnly);
      VisitsAreInOrder(items[from], leavesOnly);
      InOrderBelow(Index(from), Visits(items[from], leavesOnly));
      ItemVisitsInOrder(items, from + 1, leavesOnly);
      InOrderConcat(first, rest);
    }
  }

  lemma {:induction false} MemberVisitsInOrder(ms: seq<Member>, leavesOnly: bool)
    requires Sorted(ms) && forall i :: 0 <= i < |ms| ==> WellFormed(ms[i].val)
    ensures InOrder(MemberVisits(ms, leavesOnly)) && StartIn(MemberVisits(ms, leavesOnly), ms)
    decreases ms, 0
  {
    hide Visits, InOrder, WellFormed, CompareBytes;
    if ms == [] {
      OneInOrder(Null);
    } else {
      assert ms[0].val < ms[0];
      var first := Below([Key(ms[0].key)], Visits(ms[0].val, leavesOnly));
      var rest := MemberVisits(ms[1..], leavesOnly);
      VisitsAreInOrder(ms[0].val, leavesOnly);
      InOrderBelow(Key(ms[0].key), Visits(ms[0].val, leavesOnly));
      MemberVisitsInOrder(ms[1..], leavesOnly);
      forall i | 0 <= i < |rest| ensures CompareBytes(ms[0].key, rest[i].path[0].key) < 0 {
        var k :| 0 <= k < |ms[1..]| && ms[1..][k].key == rest[i].path[0].key;
      }
      assert CompareBytes(ms[0].key, ms[0].key) == 0 by { CompareBytesSign(ms[0].key, ms[0].key); }
      InOrderConcat(first, rest);
      StartInMore(first, rest, ms);
    }
  }

  lemma StartInMore(first: seq<Visit>, rest: seq<Visit>, ms: seq<Member>)
    requires ms != [] && StartIn(rest, ms[1..])
    requires forall i :: 0 <= i < |first| ==> first[i].path != [] && first[i].path[0] == Key(ms[0].key)
    ensures StartIn(first + rest, ms)
  {
    var all := first + rest;
    forall i | 0 <= i < |all|
      ensures all[i].path != [] && all[i].path[0].Key? && exists k :: 0 <= k < |ms| && ms[k].key == all[i].path[0].key
    {
      if i < |first| {
        assert ms[0].key == all[i].path[0].key;
      } else {
        var k :| 0 <= k < |ms[1..]| && ms[1..][k].key == rest[i - |first|].path[0].key;
        assert ms[k + 1].key == all[i].path[0].key;
      }
    }
  }
}
