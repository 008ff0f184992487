/** Merging and coercion (`merge_explicit`, the rules, `coerce_merge`). */
module Merging {
  import opened Bytes
  import opened Json
  import opened Integers
  import opened Encoders
  import opened Paths
  import ParserSpec

  /** What the model does not look into about doubles: how `ostream << double` prints one, what `coerce_integer`
      makes of one, and whether `compare` finds it equal to zero. Sums of doubles stay symbolic. */
  datatype Floats = Floats(show: ShowDecimal, truncate: Double -> int64, isZero: Double -> bool)

  const UNDEFINED: bytes := Ascii("undefined")

  // ---- coercion -------------------------------------------------------------------------------------------------

  /** The number that a string spells, if `parse` returns one. */
  function Spelled(s: bytes): (r: Option<Value>)
    ensures r.Some? ==> r.value.Int? || r.value.Decimal?
  {
    match ParserSpec.Parse(s, ParserSpec.DEFAULT_OPTIONS)
    case Returned(v) => if v.Int? || v.Decimal? then Some(v) else None
    case Thrown(_, _) => None
  }

  /** `can_coerce(v, kind::integer)`, and likewise `can_coerce(v, kind::decimal)`: numbers, and strings that spell
      one. So an integer that cannot take in a value as an integer cannot do so as a decimal either. */
  predicate CoercesToNumber(v: Value) { IsNumeric(v) || (v.Str? && Spelled(v.s).Some?) }

  /** The number that a value is or spells. */
  function NumberIn(v: Value): (r: Value)
    requires CoercesToNumber(v)
    ensures IsNumeric(r)
  {
    if v.Str? then Spelled(v.s).value else v
  }

  /** `coerce_integer`, where it does not throw. */
  function CoerceInteger(v: Value, floats: Floats): int64
    requires CoercesToNumber(v)
  {
    var number := NumberIn(v);
    if number.Int? then number.n else floats.truncate(number.d)
  }

  /** `coerce_decimal`, where it does not throw. */
  function CoerceDecimal(v: Value): Double
    requires CoercesToNumber(v)
  {
    AsDecimal(NumberIn(v))
  }

  function CoerceBoolean(v: Value, floats: Floats): bool {
    match v
    case Null => false
    case Bool(b) => b
    case Int(n) => n != 0
    case Decimal(d) => !floats.isZero(d)
    case Str(s) => s != []
    case Arr(items) => items != []
    case Obj(ms) => ms != []
  }

  function CoerceString(v: Value, floats: Floats): bytes { if v.Str? then v.s else CompactText(v, floats.show) }

  /** `a + b` on int64_t, where overflow wraps. */
  function Add(a: int64, b: int64): int64 { ToSigned((a + b) % TWO_TO_THE_64) }

  // ---- the measure of the recursion -----------------------------------------------------------------------------

  function Size(v: Value): (n: nat)
    ensures n > 0
    decreases v, 1
  {
    if v.Obj? then 1 + MembersSize(v.members) else 1
  }

  function MembersSize(ms: seq<Member>): nat
    decreases ms, 0
  {
    if ms == [] then 0
    else
      assert ms[0].val < ms[0];
      Size(ms[0].val) + MembersSize(ms[1..])
  }

  lemma {:induction false} FoundSize(ms: seq<Member>, k: bytes)
    ensures match Find(ms, k)
      case None => Erase(ms, k) == ms
      case Some(x) => MembersSize(ms) == Size(x) + MembersSize(Erase(ms, k))
  {
    hide Size;
    if ms != [] && ms[0].key != k {
      FoundSize(ms[1..], k);
      assert Erase(ms, k)[1..] == Erase(ms[1..], k);
    }
  }

  /** What `merge_explicit` merges by itself: values of one kind, and any two numbers. */
  predicate AreCompatible(a: Value, b: Value) { SameKind(a, b) || (IsNumeric(a) && IsNumeric(b)) }

  /** `coerce_merge(a, b)` calls `coerce_merge(b, a)`. */
  predicate Swaps(a: Value, b: Value) {
    !SameKind(a, b) && !b.Null? && IsNumeric(a) && !CoercesToNumber(b)
  }

  /** It does not swap back. */
  lemma SwapsOnce(a: Value, b: Value)
    requires Swaps(a, b)
    ensures !Swaps(b, a)
  {
  }

  function MergeRank(a: Value, b: Value): nat { if AreCompatible(a, b) then 0 else 3 }

  function CoerceRank(a: Value, b: Value): nat { if Swaps(a, b) then 2 else 1 }

  // ---- recursive merging ----------------------------------------------------------------------------------------

  /** `merge_recursive`. */
  function Merge(a: Value, b: Value, floats: Floats): Value
    decreases Size(a) + Size(b), MergeRank(a, b)
  {
    if !AreCompatible(a, b) then Coerce(a, b, floats)
    else if a.Obj? then Obj(MergeMembers(a.members, b.members, [], floats))
    else Join(a, b)
  }

  /** Two such values, other than objects. */
  function Join(a: Value, b: Value): Value
    requires AreCompatible(a, b) && !a.Obj?
  {
    match a
    case Null => a
    case Bool(x) => Bool(x || b.b)
    case Int(n) => if b.Int? then Int(Add(n, b.n)) else Value.Decimal(Plus(AsDecimal(a), AsDecimal(b)))
    case Decimal(d) => Value.Decimal(Plus(d, AsDecimal(b)))
    case Str(s) => Str(s + b.s)
    case Arr(items) => Arr(items + b.items)
  }

  /** `coerce_merge`. */
  function Coerce(a: Value, b: Value, floats: Floats): Value
    decreases Size(a) + Size(b), CoerceRank(a, b)
  {
    if SameKind(a, b) then Merge(a, b, floats)
    else if b.Null? then a
    else
      match a
      case Arr(items) => Arr(items + [b])
      case Bool(x) => Bool(x || CoerceBoolean(b, floats))
      case Int(n) =>
        if CoercesToNumber(b) then Int(Add(n, CoerceInteger(b, floats)))
        else Coerce(b, a, floats)
      case Decimal(d) =>
        if CoercesToNumber(b) then Value.Decimal(Plus(d, CoerceDecimal(b)))
        else Coerce(b, a, floats)
      case Null => b
      case Obj(ms) => Obj(Put(ms, UNDEFINED, b))
      case Str(s) => Str(s + CoerceString(b, floats))
  }

  /** The members of `xs` in turn, each merged with its partner from `ys`; then what is left of `ys`. */
  function MergeMembers(xs: seq<Member>, ys: seq<Member>, out: seq<Member>, floats: Floats): seq<Member>
    decreases MembersSize(xs) + MembersSize(ys), 4
  {
    if xs == [] then InsertAll(out, ys)
    else
      var k, x := xs[0].key, xs[0].val;
      match Find(ys, k)
      case None => MergeMembers(xs[1..], ys, Insert(out, k, x), floats)
      case Some(y) =>
        FoundSize(ys, k);
        MergeMembers(xs[1..], Erase(ys, k), Insert(out, k, Merge(x, y, floats)), floats)
  }

  // ---- rules that throw -----------------------------------------------------------------------------------------

  /** `throwing_merge_rules` and `recursive_merge_rules`. */
  datatype MergeRules = Throwing | Recursive

  /** A merged value, or the path at which kinds or keys clash. */
  datatype MergeOutcome = Merged(val: Value) | KindClash(path: Path) | DuplicateKey(path: Path)

  function FirstShared(xs: seq<Member>, ys: seq<Member>): Option<bytes> {
    if xs == [] then None
    else if Find(ys, xs[0].key).Some? then Some(xs[0].key)
    else FirstShared(xs[1..], ys)
  }

  function MergeThrowing(path: Path, a: Value, b: Value): MergeOutcome
  {
    if !AreCompatible(a, b) then KindClash(path)
    else if a.Obj? then
      match FirstShared(a.members, b.members)
      case Some(k) => DuplicateKey(path + [Key(k)])
      case None => Merged(Obj(InsertAll(InsertAll([], a.members), b.members)))
    else Merged(Join(a, b))
  }

  function MergeWith(rules: MergeRules, path: Path, a: Value, b: Value, floats: Floats): MergeOutcome
  {
    if rules.Throwing? then MergeThrowing(path, a, b) else Merged(Merge(a, b, floats))
  }

  // ---- the methods ----------------------------------------------------------------------------------------------

  /** `merge_explicit`. */
  method MergeExplicit(rules: MergeRules, path: Path, a: Value, b: Value, floats: Floats) returns (r: MergeOutcome)
    ensures r == MergeWith(rules, path, a, b, floats)
    decreases Size(a) + Size(b), 2 * MergeRank(a, b) + 1
  {
    hide Coerce, MergeMembers, FirstShared, InsertAll;
    if !SameKind(a, b) && !(a.Int? && b.Decimal?) && !(a.Decimal? && b.Int?) {
      r := ResolveTypeConflict(rules, path, a, b, floats);
      return;
    }
    match a {
      case Obj(ms) =>
        r := MergeObjects(rules, path, ms, b.members, floats);
      case Arr(items) =>
        r := Merged(Arr(items + b.items));
      case Bool(x) =>
        r := Merged(Bool(x || b.b));
      case Int(n) =>
        if b.Int? {
          return Merged(Int(Add(n, b.n)));
        }
        r := Merged(Value.Decimal(Plus(AsDecimal(a), AsDecimal(b))));
      case Decimal(d) =>
        r := Merged(Value.Decimal(Plus(d, AsDecimal(b))));
      case Null =>
        r := Merged(a);
      case Str(s) =>
        r := Merged(Str(s + b.s));
    }
  }

  method ResolveTypeConflict(rules: MergeRules, path: Path, a: Value, b: Value, floats: Floats)
    returns (r: MergeOutcome)
    requires !AreCompatible(a, b)
    ensures r == MergeWith(rules, path, a, b, floats)
    decreases Size(a) + Size(b), 6
  {
    hide Coerce;
    if rules.Throwing? {
      return KindClash(path);
    }
    var v := CoerceMerge(a, b, floats);
    return Merged(v);
  }

  method ResolveSameKey(rules: MergeRules, path: Path, a: Value, b: Value, floats: Floats) returns (r: MergeOutcome)
    ensures r == if rules.Throwing? then DuplicateKey(path) else Merged(Merge(a, b, floats))
    decreases Size(a) + Size(b), 8
  {
    if rules.Throwing? {
      return DuplicateKey(path);
    }
    r := MergeExplicit(rules, path, a, b, floats);
  }

  /** The object branch of `merge_explicit`. */
  method MergeObjects(rules: MergeRules, path: Path, a: seq<Member>, b: seq<Member>, floats: Floats)
    returns (r: MergeOutcome)
    ensures rules.Recursive? ==> r == Merged(Obj(MergeMembers(a, b, [], floats)))
    ensures rules.Throwing? && FirstShared(a, b).Some? ==> r == DuplicateKey(path + [Key(FirstShared(a, b).value)])
    ensures rules.Throwing? && FirstShared(a, b).None? ==> r == Merged(Obj(InsertAll(InsertAll([], a), b)))
    decreases 1 + MembersSize(a) + MembersSize(b), 10
  {
    hide MergeMembers, FirstShared, InsertAll, Merge, MembersSize, Find, Erase, Insert;
    var out: seq<Member> := [];
    var xs, ys := a, b;
    while xs != []
      invariant MembersSize(xs) + MembersSize(ys) <= MembersSize(a) + MembersSize(b)
      invariant rules.Recursive? ==> MergeMembers(xs, ys, out, floats) == MergeMembers(a, b, [], floats)
      invariant rules.Throwing? ==> ys == b && FirstShared(xs, b) == FirstShared(a, b)
      invariant rules.Throwing? ==> InsertAll(out, xs) == InsertAll([], a)
      decreases |xs|
    {
      var k, x := xs[0].key, xs[0].val;
      MergeMembersStep(xs, ys, out, floats);
      FirstSharedStep(xs, ys);
      InsertAllStep(out, xs);
      MembersSizeStep(xs);
      FoundSize(ys, k);
      var y := Find(ys, k);
      if y.None? {
        out := Insert(out, k, x);
      } else {
        var merged := ResolveSameKey(rules, path + [Key(k)], x, y.value, floats);
        if !merged.Merged? {
          return merged;
        }
        out := Insert(out, k, merged.val);
        ys := Erase(ys, k);
      }
      xs := xs[1..];
    }
    MergeMembersStep(xs, ys, out, floats);
    FirstSharedStep(xs, ys);
    InsertAllStep(out, xs);
    ghost var all := InsertAll(out, ys);
    var i := 0;
    assert ys[0..] == ys;
    while i < |ys|
      invariant 0 <= i <= |ys|
      invariant InsertAll(out, ys[i..]) == all
    {
      InsertAllStep(out, ys[i..]);
      assert ys[i..][1..] == ys[i + 1..];
      out := Insert(out, ys[i].key, ys[i].val);
      i := i + 1;
    }
    InsertAllStep(out, ys[i..]);
    return Merged(Obj(out));
  }

  lemma MergeMembersStep(xs: seq<Member>, ys: seq<Member>, out: seq<Member>, floats: Floats)
    ensures xs == [] ==> MergeMembers(xs, ys, out, floats) == InsertAll(out, ys)
    ensures xs != [] && Find(ys, xs[0].key).None? ==>
      MergeMembers(xs, ys, out, floats)
      == MergeMembers(xs[1..], ys, Insert(out, xs[0].key, xs[0].val), floats)
    ensures xs != [] && Find(ys, xs[0].key).Some? ==>
      var y := Find(ys, xs[0].key).value;
      MergeMembers(xs, ys, out, floats)
      == MergeMembers(xs[1..], Erase(ys, xs[0].key), Insert(out, xs[0].key, Merge(xs[0].val, y, floats)), floats)
  {
    hide Merge, InsertAll, Insert, Find, Erase;
  }

  lemma FirstSharedStep(xs: seq<Member>, ys: seq<Member>)
    ensures FirstShared(xs, ys) ==
      if xs == [] then None
      else if Find(ys, xs[0].key).Some? then Some(xs[0].key)
      else FirstShared(xs[1..], ys)
  {
  }

  lemma MembersSizeStep(ms: seq<Member>)
    requires ms != []
    ensures MembersSize(ms) == Size(ms[0].val) + MembersSize(ms[1..])
  {
  }

  /** `coerce_merge`. */
  method CoerceMerge(a: Value, b: Value, floats: Floats) returns (r: Value)
    ensures r == Coerce(a, b, floats)
    decreases Size(a) + Size(b), 2 * CoerceRank(a, b) + 1
  {
    hide Merge, Spelled, Size, CompactText, Put;
    if SameKind(a, b) {
      var merged := MergeExplicit(Recursive, [], a, b, floats);
      return merged.val;
    } else if b.Null? {
      return a;
    }
    match a {
      case Arr(items) =>
        return Arr(items + [b]);
      case Bool(x) =>
        return Bool(x || CoerceBoolean(b, floats));
      case Int(n) =>
        if CoercesToNumber(b) {
          return Int(Add(n, CoerceInteger(b, floats)));
        }
        r := CoerceMerge(b, a, floats);
      case Decimal(d) =>
        if CoercesToNumber(b) {
          return Value.Decimal(Plus(d, CoerceDecimal(b)));
        }
        r := CoerceMerge(b, a, floats);
      case Null =>
        return b;
      case Obj(ms) =>
        return Obj(Put(ms, UNDEFINED, b));
      case Str(s) =>
        return Str(s + CoerceString(b, floats));
    }
  }

  // ---- what a merge contains ------------------------------------------------------------------------------------

  /** A key of a merged object: one side's value, or both merged. */
  function JoinedAt(xs: seq<Member>, ys: seq<Member>, k: bytes, floats: Floats): Option<Value>
  {
    match Find(xs, k)
    case None => Find(ys, k)
    case Some(x) =>
      match Find(ys, k)
      case None => Some(x)
      case Some(y) =>
        Some(Merge(x, y, floats))
  }

  lemma {:induction false} MergedLookup(
    xs: seq<Member>, ys: seq<Member>, out: seq<Member>, floats: Floats, k: bytes)
    requires Sorted(xs) && Sorted(ys)
    ensures Find(MergeMembers(xs, ys, out, floats), k)
         == if Find(out, k).Some? then Find(out, k) else JoinedAt(xs, ys, k, floats)
    decreases |xs|
  {
    hide MergeMembers, Merge, Put, InsertAll, Erase;
    MergeMembersStep(xs, ys, out, floats);
    if xs == [] {
      FindInsertAll(out, ys, k);
    } else {
      var key, x := xs[0].key, xs[0].val;
      AboveIsAbsent(key, xs[1..]);
      if Find(ys, key).None? {
        FindPut(out, key, x, k);
        MergedLookup(xs[1..], ys, Insert(out, key, x), floats, k);
      } else {
        var v := Merge(x, Find(ys, key).value, floats);
        FindPut(out, key, v, k);
        EraseSorted(ys, key);
        FindErase(ys, key, k);
        MergedLookup(xs[1..], Erase(ys, key), Insert(out, key, v), floats, k);
      }
    }
  }

  lemma MergeOfObjects(xs: seq<Member>, ys: seq<Member>, floats: Floats)
    ensures Merge(Obj(xs), Obj(ys), floats) == Obj(MergeMembers(xs, ys, [], floats))
  {
    hide MergeMembers;
  }

  /** The members of two merged objects, key by key. */
  lemma MergedObject(xs: seq<Member>, ys: seq<Member>, floats: Floats, k: bytes)
    requires Sorted(xs) && Sorted(ys)
    ensures Merge(Obj(xs), Obj(ys), floats).Obj?
    ensures var (x, y, r) := (Find(xs, k), Find(ys, k), Find(Merge(Obj(xs), Obj(ys), floats).members, k));
      && r == JoinedAt(xs, ys, k, floats)
      && (x.None? ==> r == y) && (y.None? ==> r == x)
      && (x.Some? && y.Some? ==> r == Some(Merge(x.value, y.value, floats)))
  {
    hide MergeMembers, Find, Merge;
    MergeOfObjects(xs, ys, floats);
    MergedLookup(xs, ys, [], floats, k);
    FindNothing(k);
  }

  lemma {:induction false} MergedIsSorted(
    xs: seq<Member>, ys: seq<Member>, out: seq<Member>, floats: Floats)
    requires Sorted(out)
    ensures Sorted(MergeMembers(xs, ys, out, floats))
    decreases |xs|
  {
    hide MergeMembers, Merge, Put, InsertAll, Erase, Sorted, Find;
    MergeMembersStep(xs, ys, out, floats);
    if xs == [] {
      InsertAllSorted(out, ys);
    } else {
      var key, x := xs[0].key, xs[0].val;
      if Find(ys, key).None? {
        PutSorted(out, key, x);
        MergedIsSorted(xs[1..], ys, Insert(out, key, x), floats);
      } else {
        var v := Merge(x, Find(ys, key).value, floats);
        PutSorted(out, key, v);
        MergedIsSorted(xs[1..], Erase(ys, key), Insert(out, key, v), floats);
      }
    }
  }

  /** A merge keeps objects in key order. */
  lemma {:induction false} MergeIsWellFormed(a: Value, b: Value, floats: Floats)
    requires WellFormed(a) && WellFormed(b)
    ensures WellFormed(Merge(a, b, floats))
    decreases Size(a) + Size(b), 3
  {
    hide MergeMembers, Coerce, Sorted;
    if !AreCompatible(a, b) {
      CoerceIsWellFormed(a, b, floats);
    } else if a.Obj? {
      var r := MergeMembers(a.members, b.members, [], floats);
      NothingIsSorted();
      MergedIsSorted(a.members, b.members, [], floats);
      forall i | 0 <= i < |r| ensures WellFormed(r[i].val) {
        FindAt(r, i);
        MergedObject(a.members, b.members, floats, r[i].key);
        MemberIsWellFormed(a, b, r[i], floats);
      }
    }
  }

  lemma NothingIsSorted()
    ensures Sorted([])
  {
  }

  lemma MemberIsWellFormed(a: Value, b: Value, m: Member, floats: Floats)
    requires a.Obj? && b.Obj? && WellFormed(a) && WellFormed(b)
    requires JoinedAt(a.members, b.members, m.key, floats) == Some(m.val)
    ensures WellFormed(m.val)
    decreases Size(a) + Size(b), 2
  {
    hide Merge, Find, Erase, Sorted;
    var xs, ys, k := a.members, b.members, m.key;
    FoundSize(xs, k);
    FoundSize(ys, k);
    if Find(xs, k).Some? {
      var i := FoundIsMember(xs, k);
    }
    if Find(ys, k).Some? {
      var j := FoundIsMember(ys, k);
    }
    if Find(xs, k).Some? && Find(ys, k).Some? {
      MergeIsWellFormed(Find(xs, k).value, Find(ys, k).value, floats);
    }
  }

  lemma CoerceIsWellFormed(a: Value, b: Value, floats: Floats)
    requires WellFormed(a) && WellFormed(b) && !SameKind(a, b)
    ensures WellFormed(Coerce(a, b, floats))
    decreases CoerceRank(a, b)
  {
    hide Put, Sorted, Spelled, CompactText;
    if Swaps(a, b) {
      CoerceIsWellFormed(b, a, floats);
    } else if a.Obj? && !b.Null? {
      var r := Put(a.members, UNDEFINED, b);
      PutSorted(a.members, UNDEFINED, b);
      forall i | 0 <= i < |r| ensures WellFormed(r[i].val) {
        PutMember(a.members, UNDEFINED, b, r[i]);
      }
    }
  }

  /** A merge of trees without decimals has none, even where a string spells one. */
  lemma {:induction false} MergeMakesNoDecimals(a: Value, b: Value, floats: Floats)
    requires DecimalFree(a) && DecimalFree(b) && WellFormed(a) && WellFormed(b)
    ensures DecimalFree(Merge(a, b, floats))
    decreases Size(a) + Size(b), 3
  {
    hide MergeMembers, Coerce, Sorted, WellFormed;
    MergeIsWellFormed(a, b, floats);
    if !AreCompatible(a, b) {
      CoerceMakesNoDecimals(a, b, floats);
    } else if a.Obj? {
      var r := MergeMembers(a.members, b.members, [], floats);
      assert Sorted(r) && Sorted(a.members) && Sorted(b.members) by { MembersOfWellFormed(a, b, r); }
      forall i | 0 <= i < |r| ensures DecimalFree(r[i].val) {
        FindAt(r, i);
        MergedObject(a.members, b.members, floats, r[i].key);
        MemberIsDecimalFree(a, b, r[i], floats);
      }
    }
  }

  lemma MembersOfWellFormed(a: Value, b: Value, r: seq<Member>)
    requires a.Obj? && b.Obj? && WellFormed(a) && WellFormed(b) && WellFormed(Obj(r))
    ensures Sorted(r) && Sorted(a.members) && Sorted(b.members)
  {
  }

  lemma MemberIsDecimalFree(a: Value, b: Value, m: Member, floats: Floats)
    requires a.Obj? && b.Obj? && WellFormed(a) && WellFormed(b) && DecimalFree(a) && DecimalFree(b)
    requires JoinedAt(a.members, b.members, m.key, floats) == Some(m.val)
    ensures DecimalFree(m.val)
    decreases Size(a) + Size(b), 2
  {
    hide Merge, Find, Erase, Sorted;
    var xs, ys, k := a.members, b.members, m.key;
    FoundSize(xs, k);
    FoundSize(ys, k);
    if Find(xs, k).Some? {
      var i := FoundIsMember(xs, k);
    }
    if Find(ys, k).Some? {
      var j := FoundIsMember(ys, k);
    }
    if Find(xs, k).Some? && Find(ys, k).Some? {
      MergeMakesNoDecimals(Find(xs, k).value, Find(ys, k).value, floats);
    }
  }

  lemma CoerceMakesNoDecimals(a: Value, b: Value, floats: Floats)
    requires DecimalFree(a) && DecimalFree(b) && !SameKind(a, b)
    ensures DecimalFree(Coerce(a, b, floats))
    decreases CoerceRank(a, b)
  {
    hide Put, Spelled, CompactText;
    if Swaps(a, b) {
      CoerceMakesNoDecimals(b, a, floats);
    } else if a.Obj? && !b.Null? {
      var r := Put(a.members, UNDEFINED, b);
      forall i | 0 <= i < |r| ensures DecimalFree(r[i].val) {
        PutMember(a.members, UNDEFINED, b, r[i]);
      }
    }
  }

  /** Where a swap leads: a number that cannot take a value in is coerced into it, and nothing of either is lost. */
  lemma NumberGoesInto(a: Value, b: Value, floats: Floats)
    requires Swaps(a, b)
    ensures Merge(a, b, floats) ==
      if b.Bool? then Bool(b.b || if a.Int? then a.n != 0 else !floats.isZero(a.d))
      else if b.Str? then Str(b.s + if a.Int? then Show(a.n) else DecimalText(a.d, floats.show))
      else if b.Arr? then Arr(b.items + [a])
      else Obj(Put(b.members, UNDEFINED, a))
    ensures b.Bool? || b.Str? || b.Arr? || b.Obj?
  {
    hide Put, Show, Spelled, DecimalText;
    assert Merge(a, b, floats) == Coerce(b, a, floats);
    assert CompactText(a, floats.show) == ScalarText(a, floats.show);
  }

  /** `r` is `x` followed by `y`. */
  ghost predicate IsJoin<T(!new)>(r: seq<T>, x: seq<T>, y: seq<T>) {
    |r| == |x| + |y| && forall i :: 0 <= i < |r| ==> r[i] == if i < |x| then x[i] else y[i - |x|]
  }

  /** `r` is the sum, modulo 2^64. */
  predicate IsSum(r: int64, x: int64, y: int64) { (r - (x + y)) % TWO_TO_THE_64 == 0 }

  lemma AddIsSum(x: int64, y: int64)
    ensures IsSum(Add(x, y), x, y)
    ensures INT64_MIN <= x + y <= INT64_MAX ==> Add(x, y) == x + y
  {
  }

  /** What two values of one kind, or two numbers, merge into under either set of rules. */
  lemma MergedContents(rules: MergeRules, path: Path, a: Value, b: Value, floats: Floats)
    ensures var r := MergeWith(rules, path, a, b, floats);
      && (a.Str? && b.Str? ==> r.Merged? && r.val.Str? && IsJoin(r.val.s, a.s, b.s))
      && (a.Arr? && b.Arr? ==> r.Merged? && r.val.Arr? && IsJoin(r.val.items, a.items, b.items))
      && (a.Bool? && b.Bool? ==> r.Merged? && r.val.Bool? && (r.val.b <==> a.b || b.b))
      && (a.Null? && b.Null? ==> r == Merged(Value.Null))
      && (a.Int? && b.Int? ==> r.Merged? && r.val.Int? && IsSum(r.val.n, a.n, b.n))
      && (a.Int? && b.Decimal? ==> r == Merged(Value.Decimal(Plus(OfInteger(a.n), b.d))))
      && (a.Decimal? && b.Int? ==> r == Merged(Value.Decimal(Plus(a.d, OfInteger(b.n)))))
      && (a.Decimal? && b.Decimal? ==> r == Merged(Value.Decimal(Plus(a.d, b.d))))
  {
    hide Add, IsSum;
    if a.Int? && b.Int? {
      AddIsSum(a.n, b.n);
    }
  }

  /** Other kinds clash under throwing rules. Under recursive rules what becomes of them is decided by the left value;
      a number with a value that is none is for `NumberWithString` and `NumberGoesInto`. */
  lemma CoercedContents(path: Path, a: Value, b: Value, floats: Floats)
    requires !SameKind(a, b) && !(IsNumeric(a) && IsNumeric(b))
    ensures MergeWith(Throwing, path, a, b, floats) == KindClash(path)
    ensures var r := Merge(a, b, floats);
      && (a.Null? ==> r == b)
      && (b.Null? ==> r == a)
      && (a.Arr? && !b.Null? ==> r.Arr? && IsJoin(r.items, a.items, [b]))
      && (a.Str? && !b.Null? ==> r.Str? && IsJoin(r.s, a.s, CompactText(b, floats.show)))
      && (a.Bool? && !b.Null? ==> r.Bool? && (r.b <==>
            || a.b || (b.Str? && |b.s| > 0) || (b.Arr? && |b.items| > 0) || (b.Obj? && |b.members| > 0)
            || (b.Int? && b.n != 0) || (b.Decimal? && !floats.isZero(b.d))))
      && (a.Obj? && !b.Null? ==>
            r.Obj? && forall k :: Find(r.members, k) == if k == UNDEFINED then Some(b) else Find(a.members, k))
  {
    hide Find, Put, CompactText, Spelled, Merge, Coerce;
    MergeCoerces(a, b, floats);
    CoerceOnce(a, b, floats);
    if a.Obj? && !b.Null? {
      forall k ensures Find(Put(a.members, UNDEFINED, b), k) == if k == UNDEFINED then Some(b) else Find(a.members, k) {
        FindPut(a.members, UNDEFINED, b, k);
      }
    }
  }

  lemma MergeCoerces(a: Value, b: Value, floats: Floats)
    requires !AreCompatible(a, b)
    ensures Merge(a, b, floats) == Coerce(a, b, floats)
  {
    hide Coerce;
  }

  /** `coerce_merge` on two kinds, where it does not swap. */
  lemma CoerceOnce(a: Value, b: Value, floats: Floats)
    requires !SameKind(a, b)
    ensures b.Null? ==> Coerce(a, b, floats) == a
    ensures a.Null? ==> Coerce(a, b, floats) == b
    ensures !b.Null? && a.Arr? ==> Coerce(a, b, floats) == Arr(a.items + [b])
    ensures !b.Null? && a.Bool? ==> Coerce(a, b, floats) == Bool(a.b || CoerceBoolean(b, floats))
    ensures !b.Null? && a.Obj? ==> Coerce(a, b, floats) == Obj(Put(a.members, UNDEFINED, b))
    ensures !b.Null? && a.Str? ==> Coerce(a, b, floats) == Str(a.s + CoerceString(b, floats))
    ensures Swaps(a, b) ==> Coerce(a, b, floats) == Coerce(b, a, floats)
  {
    hide Merge, Put, CompactText, Spelled, CoerceBoolean, CoerceString;
  }

  /** A number takes in a string that `parse` finds to be a number, and no other. */
  lemma NumberWithString(a: Value, s: bytes, floats: Floats)
    requires IsNumeric(a)
    ensures var (p, r) := (ParserSpec.Parse(s, ParserSpec.DEFAULT_OPTIONS), Merge(a, Str(s), floats));
      if p.Returned? && (p.val.Int? || p.val.Decimal?) then
        && (a.Int? && p.val.Int? ==> r.Int? && IsSum(r.n, a.n, p.val.n))
        && (a.Int? && p.val.Decimal? ==> r.Int? && IsSum(r.n, a.n, floats.truncate(p.val.d)))
        && (a.Decimal? && p.val.Int? ==> r == Value.Decimal(Plus(a.d, OfInteger(p.val.n))))
        && (a.Decimal? && p.val.Decimal? ==> r == Value.Decimal(Plus(a.d, p.val.d)))
      else r.Str? && IsJoin(r.s, s, CompactText(a, floats.show))
  {
    hide Add, IsSum, ParserSpec.Parse, CompactText;
    if a.Int? && CoercesToNumber(Str(s)) {
      AddIsSum(a.n, CoerceInteger(Str(s), floats));
    }
    if !CoercesToNumber(Str(s)) {
      MergeCoerces(a, Str(s), floats);
      CoerceOnce(a, Str(s), floats);
      CoerceOnce(Str(s), a, floats);
    }
  }

  // ---- a monoid -------------------------------------------------------------------------------------------------

  /** Null is the identity on both sides. */
  lemma NullIsIdentity(v: Value, floats: Floats)
    ensures Merge(Null, v, floats) == v && Merge(v, Null, floats) == v
  {
  }

  /** At every path of keys that both trees have, their kinds agree and are not decimal, or one of them is null. */
  ghost predicate Agree(a: Value, b: Value) {
    || a.Null? || b.Null?
    || (SameKind(a, b) && !a.Decimal?
        && (a.Obj? ==>
              forall i :: 0 <= i < |a.members| && Find(b.members, a.members[i].key).Some? ==>
                Agree(a.members[i].val, Find(b.members, a.members[i].key).value)))
  }

  lemma AgreeBelow(a: Value, b: Value, k: bytes)
    requires a.Obj? && b.Obj? && Agree(a, b) && Find(a.members, k).Some? && Find(b.members, k).Some?
    ensures Agree(Find(a.members, k).value, Find(b.members, k).value)
  {
    hide Find;
    var i := FoundIsMember(a.members, k);
  }

  lemma AddAssociative(a: int64, b: int64, c: int64)
    ensures Add(Add(a, b), c) == Add(a, Add(b, c))
  {
    AddModulo(a, b, c);
    AddModulo(b, c, a);
  }

  lemma AddModulo(a: int64, b: int64, c: int64)
    ensures (Add(a, b) + c) % TWO_TO_THE_64 == (a + b + c) % TWO_TO_THE_64
  {
  }

  /** Where kinds agree, merging is associative. */
  lemma {:induction false} MergeIsAssociative(a: Value, b: Value, c: Value, floats: Floats)
    requires WellFormed(a) && WellFormed(b) && WellFormed(c)
    requires Agree(a, b) && Agree(b, c) && Agree(a, c)
    ensures Merge(Merge(a, b, floats), c, floats) == Merge(a, Merge(b, c, floats), floats)
    decreases a, 1
  {
    hide MergeMembers, Coerce, WellFormed;
    MergeIsWellFormed(a, b, floats);
    MergeIsWellFormed(b, c, floats);
    NullIsIdentity(a, floats);
    NullIsIdentity(b, floats);
    NullIsIdentity(c, floats);
    if a.Null? || b.Null? || c.Null? {
      NullIsIdentity(Merge(a, b, floats), floats);
      NullIsIdentity(Merge(b, c, floats), floats);
    } else if a.Obj? {
      ObjectsAssociative(a, b, c, floats);
    } else {
      JoinAssociative(a, b, c);
    }
  }

  lemma JoinAssociative(a: Value, b: Value, c: Value)
    requires SameKind(a, b) && SameKind(b, c) && !a.Obj? && !a.Decimal?
    ensures Join(Join(a, b), c) == Join(a, Join(b, c))
  {
    hide Add;
    if a.Int? {
      AddAssociative(a.n, b.n, c.n);
    } else if a.Str? {
      assert (a.s + b.s) + c.s == a.s + (b.s + c.s);
    } else if a.Arr? {
      assert (a.items + b.items) + c.items == a.items + (b.items + c.items);
    }
  }

  lemma {:induction false} KeyAssociative(a: Value, b: Value, c: Value, floats: Floats, k: bytes)
    requires a.Obj? && b.Obj? && c.Obj?
    requires WellFormed(a) && WellFormed(b) && WellFormed(c)
    requires Agree(a, b) && Agree(b, c) && Agree(a, c)
    ensures JoinedAt(Merge(a, b, floats).members, c.members, k, floats)
         == JoinedAt(a.members, Merge(b, c, floats).members, k, floats)
    decreases a, 0, 0
  {
    hide Merge, Find, Agree, Sorted;
    MergedObject(a.members, b.members, floats, k);
    MergedObject(b.members, c.members, floats, k);
    var x, y, z := Find(a.members, k), Find(b.members, k), Find(c.members, k);
    if x.Some? && y.Some? && z.Some? {
      var i := FoundIsMember(a.members, k);
      var j := FoundIsMember(b.members, k);
      var l := FoundIsMember(c.members, k);
      AgreeBelow(a, b, k);
      AgreeBelow(b, c, k);
      AgreeBelow(a, c, k);
      assert a.members[i].val < a.members[i];
      MergeIsAssociative(x.value, y.value, z.value, floats);
    }
  }

  lemma ObjectsAssociative(a: Value, b: Value, c: Value, floats: Floats)
    requires a.Obj? && b.Obj? && c.Obj?
    requires WellFormed(a) && WellFormed(b) && WellFormed(c)
    requires Agree(a, b) && Agree(b, c) && Agree(a, c)
    ensures Merge(Merge(a, b, floats), c, floats) == Merge(a, Merge(b, c, floats), floats)
    decreases a, 0, 1
  {
    hide Merge, Find, Agree, JoinedAt, Sorted;
    MergeIsWellFormed(a, b, floats);
    MergeIsWellFormed(b, c, floats);
    var ab, bc := Merge(a, b, floats), Merge(b, c, floats);
    MergedKind(a, b, floats);
    MergedKind(b, c, floats);
    MergedKind(ab, c, floats);
    MergedKind(a, bc, floats);
    MergeIsWellFormed(ab, c, floats);
    MergeIsWellFormed(a, bc, floats);
    var l, r := Merge(ab, c, floats), Merge(a, bc, floats);
    forall k ensures Find(l.members, k) == Find(r.members, k) {
      MergedValues(ab, c, floats, k);
      MergedValues(a, bc, floats, k);
      KeyAssociative(a, b, c, floats, k);
    }
    SameLookups(l.members, r.members);
  }

  lemma MergedValues(a: Value, b: Value, floats: Floats, k: bytes)
    requires a.Obj? && b.Obj? && WellFormed(a) && WellFormed(b)
    ensures Merge(a, b, floats).Obj?
    ensures Find(Merge(a, b, floats).members, k) == JoinedAt(a.members, b.members, k, floats)
  {
    hide Merge, Find, JoinedAt;
    MergedObject(a.members, b.members, floats, k);
  }

  lemma MergedKind(a: Value, b: Value, floats: Floats)
    requires a.Obj? && b.Obj?
    ensures Merge(a, b, floats).Obj?
  {
  }

  /** Where kinds differ the grouping can show. For example, 1, [] and 2 give [1, 2] or [2, 1]. */
  lemma MixedKindsAssociateDifferently(floats: Floats)
    ensures Merge(Merge(Int(1), Arr([]), floats), Int(2), floats) == Arr([Int(1), Int(2)])
    ensures Merge(Int(1), Merge(Arr([]), Int(2), floats), floats) == Arr([Int(2), Int(1)])
  {
    hide Put, CompactText, Spelled;
    assert Merge(Int(1), Arr([]), floats) == Coerce(Arr([]), Int(1), floats) == Arr([Int(1)]);
    assert Merge(Arr([]), Int(2), floats) == Arr([Int(2)]);
    assert Merge(Int(1), Arr([Int(2)]), floats) == Coerce(Arr([Int(2)]), Int(1), floats);
  }

  // ---- rules that throw -----------------------------------------------------------------------------------------

  lemma {:induction false} FirstSharedIsShared(xs: seq<Member>, ys: seq<Member>)
    ensures FirstShared(xs, ys).None? <==> forall k :: Find(xs, k).None? || Find(ys, k).None?
    ensures FirstShared(xs, ys).Some? ==>
      Find(xs, FirstShared(xs, ys).value).Some? && Find(ys, FirstShared(xs, ys).value).Some?
  {
    if xs != [] {
      FirstSharedIsShared(xs[1..], ys);
      assert Find(xs, xs[0].key).Some?;
      if FirstShared(xs, ys).None? {
        forall k ensures Find(xs, k).None? || Find(ys, k).None? {
          assert Find(xs[1..], k).None? || Find(ys, k).None?;
        }
      }
    }
  }

  /** Throwing rules stop at the first member whose key is in both objects. */
  lemma {:induction false} StopsAtFirstShared(path: Path, xs: seq<Member>, ys: seq<Member>, n: nat)
    requires n < |xs| && Find(ys, xs[n].key).Some? && forall i :: 0 <= i < n ==> Find(ys, xs[i].key).None?
    ensures FirstShared(xs, ys) == Some(xs[n].key)
    ensures MergeThrowing(path, Obj(xs), Obj(ys)) == DuplicateKey(path + [Key(xs[n].key)])
  {
    hide Find;
    if n > 0 {
      forall i | 0 <= i < n - 1 ensures Find(ys, xs[1..][i].key).None? {
        assert xs[1..][i] == xs[i + 1];
      }
      StopsAtFirstShared(path, xs[1..], ys, n - 1);
    }
  }

  /** The throwing rules merge two objects exactly when they share no key, and then the result is their union. */
  lemma ThrowingMerges(path: Path, xs: seq<Member>, ys: seq<Member>)
    ensures var r := MergeThrowing(path, Obj(xs), Obj(ys));
      && (r.Merged? <==> forall k :: Find(xs, k).None? || Find(ys, k).None?)
      && (r.Merged? ==> r.val.Obj? && forall k ::
            Find(r.val.members, k) == if Find(xs, k).Some? then Find(xs, k) else Find(ys, k))
  {
    hide Find, InsertAll;
    FirstSharedIsShared(xs, ys);
    forall k
      ensures Find(InsertAll(InsertAll([], xs), ys), k) == if Find(xs, k).Some? then Find(xs, k) else Find(ys, k)
    {
      FindNothing(k);
      FindInsertAll([], xs, k);
      FindInsertAll(InsertAll([], xs), ys, k);
    }
  }
}
