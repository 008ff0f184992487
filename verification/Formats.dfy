/** The registries of extractors and serializers (`formats::data`), which compose into a graph that only grows. */
module Formats {
  import opened Bytes

  /** An extractor, serializer or adapter, and the type it is for. */
  datatype Codec = Codec(typeIndex: nat, id: nat)

  type Registry = map<nat, Codec>

  datatype Side = Extracting | Serializing

  /** `duplicate_type_action`. */
  datatype DuplicateAction = Ignore | Replace | Exception

  /** A registry after an insertion; None is a duplicate_type_error. */
  function Inserted(m: Registry, c: Codec, action: DuplicateAction): Option<Registry> {
    if c.typeIndex !in m then Some(m[c.typeIndex := c])
    else
      match action
      case Ignore => Some(m)
      case Replace => Some(m[c.typeIndex := c])
      case Exception => None
  }

  class Data {
    const roots: seq<Data>
    ghost const rank: nat
    ghost const reachable: set<Data>

    var extractors: Registry
    var serializers: Registry
    var owned: set<Codec>

    /** Links lead to older nodes only, so that the graph has no cycle. They never change, so this holds for good. */
    ghost predicate Valid()
      decreases rank
    {
      && this in reachable
      && forall d :: d in roots ==> d.rank < rank && d.reachable <= reachable && this !in d.reachable && d.Valid()
    }

    /** `formats::compose`. */
    constructor (bases: seq<Data>)
      requires forall d :: d in bases ==> d.Valid()
      ensures Valid() && roots == bases && extractors == map[] && serializers == map[] && owned == {}
    {
      roots := bases;
      rank := RankAbove(bases);
      reachable := {this} + (set d, e | d in bases && e in d.reachable :: e);
      extractors, serializers, owned := map[], map[], {};
    }

    function Local(side: Side): Registry
      reads this
    {
      match side case Extracting => extractors case Serializing => serializers
    }

    /** `find_impl`. */
    function FindImpl(side: Side, t: nat): Option<Codec>
      requires Valid()
      reads reachable
      decreases rank, |roots| + 1
    {
      if t in Local(side) then Some(Local(side)[t]) else FindBelow(side, t, 0)
    }

    /** The search among the roots from the index `i` on. */
    function FindBelow(side: Side, t: nat, i: nat): Option<Codec>
      requires Valid() && i <= |roots|
      reads reachable
      decreases rank, |roots| - i
    {
      if i == |roots| then None
      else
        match roots[i].FindImpl(side, t)
        case Some(c) => Some(c)
        case None => FindBelow(side, t, i + 1)
    }

    method Lookup(side: Side, t: nat) returns (found: Option<Codec>)
      requires Valid()
      ensures found == FindImpl(side, t)
      decreases rank
    {
      if t in Local(side) {
        return Some(Local(side)[t]);
      }
      var i := 0;
      while i < |roots|
        invariant 0 <= i <= |roots|
        invariant FindImpl(side, t) == FindBelow(side, t, i)
      {
        var ptr := roots[i].Lookup(side, t);
        if ptr.Some? {
          return ptr;
        }
        i := i + 1;
      }
      return None;
    }

    /** `insert_extractor`; false is a duplicate_type_error. */
    method InsertExtractor(c: Codec, action: DuplicateAction) returns (ok: bool)
      modifies this`extractors
      ensures ok <==> Inserted(old(extractors), c, action).Some?
      ensures extractors == if ok then Inserted(old(extractors), c, action).value else old(extractors)
    {
      if c.typeIndex in extractors {
        if action == Exception {
          return false;
        } else if action == Replace {
          extractors := extractors[c.typeIndex := c];
        }
      } else {
        extractors := extractors[c.typeIndex := c];
      }
      return true;
    }

    /** `insert_serializer`. */
    method InsertSerializer(c: Codec, action: DuplicateAction) returns (ok: bool)
      modifies this`serializers
      ensures ok <==> Inserted(old(serializers), c, action).Some?
      ensures serializers == if ok then Inserted(old(serializers), c, action).value else old(serializers)
    {
      if c.typeIndex in serializers {
        if action == Exception {
          return false;
        } else if action == Replace {
          serializers := serializers[c.typeIndex := c];
        }
      } else {
        serializers := serializers[c.typeIndex := c];
      }
      return true;
    }

    /** `insert_adapter`: when the second insertion throws, the first is rolled back by erasing its entry. That
        restores the registry, because only new entries get that far under `Exception`. */
    method InsertAdapter(c: Codec, action: DuplicateAction) returns (ok: bool)
      modifies this`extractors, this`serializers, this`owned
      ensures ok <==> Inserted(old(extractors), c, action).Some? && Inserted(old(serializers), c, action).Some?
      ensures ok ==> extractors == Inserted(old(extractors), c, action).value
      ensures ok ==> serializers == Inserted(old(serializers), c, action).value
      ensures !ok ==> extractors == old(extractors) && serializers == old(serializers) && owned == old(owned)
      ensures ok ==> owned == old(owned) + {c}
    {
      ok := InsertExtractor(c, action);
      if !ok {
        return;
      }
      ok := InsertSerializer(c, action);
      if !ok {
        extractors := extractors - {c.typeIndex};
        return;
      }
      owned := owned + {c};
    }

    // ---- the order of the search --------------------------------------------------------------------------------

    /** The nodes in depth-first order from left to right; a node with several ways to it appears several times. */
    ghost function Preorder(): seq<Data>
      requires Valid()
      decreases rank, |roots| + 1
    {
      [this] + PreorderBelow(0)
    }

    ghost function PreorderBelow(i: nat): seq<Data>
      requires Valid() && i <= |roots|
      decreases rank, |roots| - i
    {
      if i == |roots| then [] else roots[i].Preorder() + PreorderBelow(i + 1)
    }
  }

  ghost function RankAbove(ds: seq<Data>): (n: nat)
    ensures forall d :: d in ds ==> d.rank < n
  {
    if ds == [] then 0
    else
      var n := RankAbove(ds[1..]);
      if ds[0].rank < n then n else ds[0].rank + 1
  }

  /** A node's own entry comes first, then what the first of its bases finds that finds anything. */
  lemma {:induction false} OwnThenFirstBase(d: Data, side: Side, t: nat, i: nat)
    requires d.Valid() && i <= |d.roots|
    requires forall j :: 0 <= j < i ==> d.roots[j].FindImpl(side, t).None?
    ensures t in d.Local(side) ==> d.FindImpl(side, t) == Some(d.Local(side)[t])
    ensures t !in d.Local(side) && i < |d.roots| && d.roots[i].FindImpl(side, t).Some? ==>
      d.FindImpl(side, t) == d.roots[i].FindImpl(side, t)
    ensures t !in d.Local(side) && i == |d.roots| ==> d.FindImpl(side, t).None?
  {
    hide Data.FindImpl;
    FindUnfolds(d, side, t);
    SearchSkips(d, side, t, i);
  }

  lemma FindUnfolds(d: Data, side: Side, t: nat)
    requires d.Valid()
    ensures d.FindImpl(side, t) == if t in d.Local(side) then Some(d.Local(side)[t]) else d.FindBelow(side, t, 0)
  {
  }

  lemma {:induction false} SearchSkips(d: Data, side: Side, t: nat, i: nat)
    requires d.Valid() && i <= |d.roots|
    requires forall j :: 0 <= j < i ==> d.roots[j].FindImpl(side, t).None?
    ensures d.FindBelow(side, t, 0) == d.FindBelow(side, t, i)
    decreases i
  {
    if i > 0 {
      SearchSkips(d, side, t, i - 1);
    }
  }

  /** The first node with an entry for the type. */
  ghost function FirstHit(ds: seq<Data>, side: Side, t: nat): Option<Codec>
    reads ds
  {
    if ds == [] then None
    else if t in ds[0].Local(side) then Some(ds[0].Local(side)[t])
    else FirstHit(ds[1..], side, t)
  }

  lemma {:induction false} FirstHitConcat(a: seq<Data>, b: seq<Data>, side: Side, t: nat)
    ensures FirstHit(a + b, side, t)
         == if FirstHit(a, side, t).Some? then FirstHit(a, side, t) else FirstHit(b, side, t)
  {
    if a == [] {
      assert a + b == b;
    } else {
      assert (a + b)[1..] == a[1..] + b;
      FirstHitConcat(a[1..], b, side, t);
    }
  }

  /** `find_impl` returns the first hit in depth-first order. */
  lemma {:induction false} FindIsFirstHit(d: Data, side: Side, t: nat)
    requires d.Valid()
    ensures d.FindImpl(side, t) == FirstHit(d.Preorder(), side, t)
    decreases d.rank, |d.roots| + 1
  {
    FindBelowIsFirstHit(d, side, t, 0);
    assert d.Preorder()[1..] == d.PreorderBelow(0);
  }

  lemma {:induction false} FindBelowIsFirstHit(d: Data, side: Side, t: nat, i: nat)
    requires d.Valid() && i <= |d.roots|
    ensures d.FindBelow(side, t, i) == FirstHit(d.PreorderBelow(i), side, t)
    decreases d.rank, |d.roots| - i
  {
    if i < |d.roots| {
      FindIsFirstHit(d.roots[i], side, t);
      FindBelowIsFirstHit(d, side, t, i + 1);
      FirstHitConcat(d.roots[i].Preorder(), d.PreorderBelow(i + 1), side, t);
    }
  }

  /** A type resolves exactly when some node in the order has an entry for it. */
  lemma {:induction false} ResolvesIffRegistered(ds: seq<Data>, side: Side, t: nat)
    ensures FirstHit(ds, side, t).Some? <==> exists i :: 0 <= i < |ds| && t in ds[i].Local(side)
  {
    if ds != [] {
      ResolvesIffRegistered(ds[1..], side, t);
      if i :| 0 <= i < |ds| && t in ds[i].Local(side) {
        assert i > 0 ==> ds[1..][i - 1] == ds[i];
      }
      if FirstHit(ds[1..], side, t).Some? {
        var i :| 0 <= i < |ds[1..]| && t in ds[1..][i].Local(side);
        assert ds[i + 1] == ds[1..][i];
      }
    }
  }

  /** A duplicate fails only under `Exception`; otherwise the type is registered afterwards, and no type is lost. */
  lemma InsertedKeeps(m: Registry, c: Codec, action: DuplicateAction)
    ensures Inserted(m, c, action).None? <==> c.typeIndex in m && action == Exception
    ensures Inserted(m, c, action).Some? ==>
      var r := Inserted(m, c, action).value;
      && r.Keys == m.Keys + {c.typeIndex}
      && (forall t :: t in m && t != c.typeIndex ==> r[t] == m[t])
      && r[c.typeIndex] == if c.typeIndex in m && action == Ignore then m[c.typeIndex] else c
  {
  }

  // ---- registrations and lookups --------------------------------------------------------------------------------

  /** What the registries hold at one moment. */
  type Snapshot = map<Data, Registry>

  ghost function Snap(d: Data, side: Side): Snapshot
    requires d.Valid()
    reads d.reachable
  {
    map e | e in d.reachable :: e.Local(side)
  }

  ghost predicate Shows(snap: Snapshot, d: Data, side: Side)
    requires d.Valid()
    reads d.reachable
  {
    forall e :: e in d.reachable ==> e in snap && snap[e] == e.Local(side)
  }

  /** The lookup at that moment. */
  ghost function Resolve(d: Data, snap: Snapshot, t: nat): Option<Codec>
    requires d.Valid() && d.reachable <= snap.Keys
    decreases d.rank, |d.roots| + 1
  {
    if t in snap[d] then Some(snap[d][t]) else ResolveBelow(d, snap, t, 0)
  }

  ghost function ResolveBelow(d: Data, snap: Snapshot, t: nat, i: nat): Option<Codec>
    requires d.Valid() && d.reachable <= snap.Keys && i <= |d.roots|
    decreases d.rank, |d.roots| - i
  {
    if i == |d.roots| then None
    else
      match Resolve(d.roots[i], snap, t)
      case Some(c) => Some(c)
      case None => ResolveBelow(d, snap, t, i + 1)
  }

  lemma {:induction false} FindResolves(d: Data, side: Side, snap: Snapshot, t: nat)
    requires d.Valid() && Shows(snap, d, side)
    ensures d.FindImpl(side, t) == Resolve(d, snap, t)
    decreases d.rank, |d.roots| + 1
  {
    FindBelowResolves(d, side, snap, t, 0);
  }

  lemma {:induction false} FindBelowResolves(d: Data, side: Side, snap: Snapshot, t: nat, i: nat)
    requires d.Valid() && Shows(snap, d, side) && i <= |d.roots|
    ensures d.FindBelow(side, t, i) == ResolveBelow(d, snap, t, i)
    decreases d.rank, |d.roots| - i
  {
    if i < |d.roots| {
      FindResolves(d.roots[i], side, snap, t);
      FindBelowResolves(d, side, snap, t, i + 1);
    }
  }

  /** No registry that `d` reaches has lost a type. */
  ghost predicate Grew(d: Data, before: Snapshot, after: Snapshot)
    requires d.Valid()
  {
    forall e :: e in d.reachable ==> e in before && e in after && before[e].Keys <= after[e].Keys
  }

  /** A type that resolved still resolves. */
  lemma {:induction false} StillResolves(d: Data, before: Snapshot, after: Snapshot, t: nat)
    requires d.Valid() && Grew(d, before, after)
    ensures Resolve(d, before, t).Some? ==> Resolve(d, after, t).Some?
    decreases d.rank, |d.roots| + 1
  {
    StillResolvesBelow(d, before, after, t, 0);
  }

  lemma {:induction false} StillResolvesBelow(d: Data, before: Snapshot, after: Snapshot, t: nat, i: nat)
    requires d.Valid() && Grew(d, before, after) && i <= |d.roots|
    ensures ResolveBelow(d, before, t, i).Some? ==> ResolveBelow(d, after, t, i).Some?
    decreases d.rank, |d.roots| - i
  {
    if i < |d.roots| {
      StillResolves(d.roots[i], before, after, t);
      StillResolvesBelow(d, before, after, t, i + 1);
    }
  }

  /** A lookup depends on the entries for its own type only. */
  lemma {:induction false} OtherTypesKeep(d: Data, before: Snapshot, after: Snapshot, t: nat)
    requires d.Valid() && Grew(d, before, after)
    requires forall e :: e in d.reachable ==> (t in after[e] ==> t in before[e] && before[e][t] == after[e][t])
    ensures Resolve(d, before, t) == Resolve(d, after, t)
    decreases d.rank, |d.roots| + 1
  {
    OtherTypesKeepBelow(d, before, after, t, 0);
  }

  lemma {:induction false} OtherTypesKeepBelow(d: Data, before: Snapshot, after: Snapshot, t: nat, i: nat)
    requires d.Valid() && Grew(d, before, after) && i <= |d.roots|
    requires forall e :: e in d.reachable ==> (t in after[e] ==> t in before[e] && before[e][t] == after[e][t])
    ensures ResolveBelow(d, before, t, i) == ResolveBelow(d, after, t, i)
    decreases d.rank, |d.roots| - i
  {
    if i < |d.roots| {
      OtherTypesKeep(d.roots[i], before, after, t);
      OtherTypesKeepBelow(d, before, after, t, i + 1);
    }
  }

  /** Nothing but entries for the type `k` has been added or replaced. */
  ghost predicate Changed(d: Data, before: Snapshot, after: Snapshot, k: nat)
    requires d.Valid()
  {
    forall e :: e in d.reachable ==>
      && e in before && e in after && before[e].Keys <= after[e].Keys
      && forall t :: t != k && t in after[e] ==> t in before[e] && before[e][t] == after[e][t]
  }

  /** What an observer notices of a registration for the type `k`: every type that resolved still does, and other
      types resolve to what they did. */
  ghost predicate Keeps(d: Data, before: Snapshot, after: Snapshot, k: nat)
    requires d.Valid() && d.reachable <= before.Keys && d.reachable <= after.Keys
  {
    forall t ::
      && (Resolve(d, before, t).Some? ==> Resolve(d, after, t).Some?)
      && (t != k ==> Resolve(d, before, t) == Resolve(d, after, t))
  }

  lemma ChangeKeeps(d: Data, before: Snapshot, after: Snapshot, k: nat)
    requires d.Valid() && Changed(d, before, after, k)
    ensures d.reachable <= before.Keys && d.reachable <= after.Keys
    ensures Keeps(d, before, after, k)
  {
    forall t
      ensures Resolve(d, before, t).Some? ==> Resolve(d, after, t).Some?
      ensures t != k ==> Resolve(d, before, t) == Resolve(d, after, t)
    {
      StillResolves(d, before, after, t);
      if t != k {
        OtherTypesKeep(d, before, after, t);
      }
    }
  }

  /** What the node itself has for the type after a registration. */
  function Winner(registry: map<nat, Codec>, c: Codec, action: DuplicateAction): Codec {
    if c.typeIndex in registry && action == Ignore then registry[c.typeIndex] else c
  }

  /** `formats::register_adapter` on any node, as seen from any other, whether it succeeded or threw. */
  method RegisterAdapter(node: Data, c: Codec, action: DuplicateAction, ghost observer: Data) returns (ok: bool)
    requires node.Valid() && observer.Valid()
    modifies node
    ensures ok <==>
      action != Exception || (c.typeIndex !in old(node.extractors) && c.typeIndex !in old(node.serializers))
    ensures !ok ==> node.extractors == old(node.extractors) && node.serializers == old(node.serializers)
    ensures ok ==> node.FindImpl(Extracting, c.typeIndex) == Some(Winner(old(node.extractors), c, action))
    ensures ok ==> node.FindImpl(Serializing, c.typeIndex) == Some(Winner(old(node.serializers), c, action))
    ensures Keeps(observer, old(Snap(observer, Extracting)), Snap(observer, Extracting), c.typeIndex)
    ensures Keeps(observer, old(Snap(observer, Serializing)), Snap(observer, Serializing), c.typeIndex)
  {
    hide Resolve, Keeps;
    InsertedKeeps(node.extractors, c, action);
    InsertedKeeps(node.serializers, c, action);
    ok := node.InsertAdapter(c, action);
    ChangeKeeps(observer, old(Snap(observer, Extracting)), Snap(observer, Extracting), c.typeIndex);
    ChangeKeeps(observer, old(Snap(observer, Serializing)), Snap(observer, Serializing), c.typeIndex);
  }

  /** `formats::register_extractor` on any node, as seen from any other. */
  method RegisterExtractor(node: Data, c: Codec, action: DuplicateAction, ghost observer: Data) returns (ok: bool)
    requires node.Valid() && observer.Valid()
    modifies node`extractors
    ensures ok <==> action != Exception || c.typeIndex !in old(node.extractors)
    ensures !ok ==> node.extractors == old(node.extractors)
    ensures ok ==> node.FindImpl(Extracting, c.typeIndex) == Some(Winner(old(node.extractors), c, action))
    ensures Keeps(observer, old(Snap(observer, Extracting)), Snap(observer, Extracting), c.typeIndex)
    ensures Snap(observer, Serializing) == old(Snap(observer, Serializing))
  {
    hide Resolve, Keeps;
    InsertedKeeps(node.extractors, c, action);
    ok := node.InsertExtractor(c, action);
    ChangeKeeps(observer, old(Snap(observer, Extracting)), Snap(observer, Extracting), c.typeIndex);
  }

  /** `formats::register_serializer` on any node, as seen from any other. */
  method RegisterSerializer(node: Data, c: Codec, action: DuplicateAction, ghost observer: Data) returns (ok: bool)
    requires node.Valid() && observer.Valid()
    modifies node`serializers
    ensures ok <==> action != Exception || c.typeIndex !in old(node.serializers)
    ensures !ok ==> node.serializers == old(node.serializers)
    ensures ok ==> node.FindImpl(Serializing, c.typeIndex) == Some(Winner(old(node.serializers), c, action))
    ensures Keeps(observer, old(Snap(observer, Serializing)), Snap(observer, Serializing), c.typeIndex)
    ensures Snap(observer, Extracting) == old(Snap(observer, Extracting))
  {
    hide Resolve, Keeps;
    InsertedKeeps(node.serializers, c, action);
    ok := node.InsertSerializer(c, action);
    ChangeKeeps(observer, old(Snap(observer, Serializing)), Snap(observer, Serializing), c.typeIndex);
  }
}
