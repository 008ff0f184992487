/** The order on values (`compare` with `compare_traits`). What `compare_decimals` makes of two doubles is a
    parameter. */
module Ordering {
  import opened Bytes
  import opened Json

  /** `compare_traits::kindval`. */
  function KindRank(v: Value): nat {
    match v
    case Null => 0
    case Bool(_) => 1
    case Int(_) => 2
    case Decimal(_) => 2
    case Str(_) => 3
    case Arr(_) => 4
    case Obj(_) => 5
  }

  type sign = x: int | -1 <= x <= 1

  /** `compare_decimals`. */
  type DecimalOrder = (Double, Double) -> sign

  function Sign(a: int, b: int): sign {
    if a == b then 0 else if a < b then -1 else 1
  }

  /** The sign of `compare(a, b)`. */
  function CompareValues(a: Value, b: Value, order: DecimalOrder): sign
    decreases a, 1
  {
    if KindRank(a) != KindRank(b) then Sign(KindRank(a), KindRank(b))
    else
      match a
      case Null => 0
      case Bool(x) => if x == b.b then 0 else if x then 1 else -1
      case Int(n) => if b.Int? then Sign(n, b.n) else order(OfInteger(n), b.d)
      case Decimal(d) => order(d, AsDecimal(b))
      case Str(s) => CompareBytes(s, b.s)
      case Arr(items) => CompareItems(items, b.items, order)
      case Obj(ms) => CompareMembers(ms, b.members, order)
  }

  function CompareItems(a: seq<Value>, b: seq<Value>, order: DecimalOrder): sign
    decreases a, 0
  {
    if a == [] then (if b == [] then 0 else -1)
    else if b == [] then 1
    else
      var c := CompareValues(a[0], b[0], order);
      if c != 0 then c else CompareItems(a[1..], b[1..], order)
  }

  function CompareMembers(a: seq<Member>, b: seq<Member>, order: DecimalOrder): sign
    decreases a, 0
  {
    if a == [] then (if b == [] then 0 else -1)
    else if b == [] then 1
    else
      var k := CompareBytes(a[0].key, b[0].key);
      if k != 0 then k
      else
        assert a[0].val < a[0];
        var c := CompareValues(a[0].val, b[0].val, order);
        if c != 0 then c else CompareMembers(a[1..], b[1..], order)
  }

  // ---- the method -----------------------------------------------------------------------------------------------

  /** `compare`: recursion inside loops that advance two iterators. */
  method Compare(a: Value, b: Value, order: DecimalOrder) returns (r: sign)
    ensures r == CompareValues(a, b, order)
    decreases a
  {
    hide CompareItems, CompareMembers;
    var kinds := Sign(KindRank(a), KindRank(b));
    if kinds != 0 {
      return kinds;
    }
    match a {
      case Null =>
        return 0;
      case Bool(x) =>
        return if x == b.b then 0 else if x then 1 else -1;
      case Int(n) =>
        if b.Int? {
          return Sign(n, b.n);
        }
        return order(AsDecimal(a), AsDecimal(b));
      case Decimal(d) =>
        return order(d, AsDecimal(b));
      case Str(s) =>
        return CompareBytes(s, b.s);
      case Arr(items) =>
        var i := 0;
        while i < |items| && i < |b.items|
          invariant 0 <= i <= |items| && i <= |b.items|
          invariant CompareItems(items, b.items, order) == CompareItems(items[i..], b.items[i..], order)
        {
          CompareItemsStep(items[i..], b.items[i..], order);
          var cmp := Compare(items[i], b.items[i], order);
          if cmp != 0 {
            return cmp;
          }
          assert items[i..][1..] == items[i + 1..] && b.items[i..][1..] == b.items[i + 1..];
          i := i + 1;
        }
        CompareItemsStep(items[i..], b.items[i..], order);
        return if i == |items| then (if i == |b.items| then 0 else -1) else 1;
      case Obj(ms) =>
        var i := 0;
        while i < |ms| && i < |b.members|
          invariant 0 <= i <= |ms| && i <= |b.members|
          invariant CompareMembers(ms, b.members, order) == CompareMembers(ms[i..], b.members[i..], order)
        {
          CompareMembersStep(ms[i..], b.members[i..], order);
          var key := CompareBytes(ms[i].key, b.members[i].key);
          if key != 0 {
            return key;
          }
          assert ms[i].val < ms[i];
          var cmp := Compare(ms[i].val, b.members[i].val, order);
          if cmp != 0 {
            return cmp;
          }
          assert ms[i..][1..] == ms[i + 1..] && b.members[i..][1..] == b.members[i + 1..];
          i := i + 1;
        }
        CompareMembersStep(ms[i..], b.members[i..], order);
        return if i == |ms| then (if i == |b.members| then 0 else -1) else 1;
    }
  }

  lemma CompareItemsStep(a: seq<Value>, b: seq<Value>, order: DecimalOrder)
    ensures a == [] || b == [] ==> CompareItems(a, b, order) == Sign(|a|, |b|)
    ensures a != [] && b != [] ==>
      var c := CompareValues(a[0], b[0], order);
      CompareItems(a, b, order) == if c != 0 then c else CompareItems(a[1..], b[1..], order)
  {
    hide CompareValues;
  }

  lemma CompareMembersStep(a: seq<Member>, b: seq<Member>, order: DecimalOrder)
    ensures a == [] || b == [] ==> CompareMembers(a, b, order) == Sign(|a|, |b|)
    ensures a != [] && b != [] ==>
      var k := CompareBytes(a[0].key, b[0].key);
      var c := CompareValues(a[0].val, b[0].val, order);
      CompareMembers(a, b, order) == if k != 0 then k else if c != 0 then c else CompareMembers(a[1..], b[1..], order)
  {
    hide CompareValues, CompareBytes;
  }

  // ---- a total order --------------------------------------------------------------------------------------------

  /** Swapping the arguments flips the sign, and zero means the same tree. */
  lemma {:induction false} CompareSign(a: Value, b: Value, order: DecimalOrder)
    requires DecimalFree(a) && DecimalFree(b)
    ensures CompareValues(b, a, order) == -CompareValues(a, b, order)
    ensures CompareValues(a, b, order) == 0 <==> a == b
    decreases a, 1
  {
    hide CompareItems, CompareMembers, CompareBytes;
    if a.Arr? && b.Arr? {
      ItemsSign(a.items, b.items, order);
    } else if a.Obj? && b.Obj? {
      MembersSign(a.members, b.members, order);
    } else if a.Str? && b.Str? {
      CompareBytesSign(a.s, b.s);
    }
  }

  lemma {:induction false} ItemsSign(a: seq<Value>, b: seq<Value>, order: DecimalOrder)
    requires AllDecimalFree(a) && AllDecimalFree(b)
    ensures CompareItems(b, a, order) == -CompareItems(a, b, order)
    ensures CompareItems(a, b, order) == 0 <==> a == b
    decreases a, 0
  {
    hide CompareItems, CompareValues, DecimalFree;
    CompareItemsStep(a, b, order);
    CompareItemsStep(b, a, order);
    if a != [] && b != [] {
      CompareSign(a[0], b[0], order);
      ItemsSign(a[1..], b[1..], order);
      assert a == [a[0]] + a[1..] && b == [b[0]] + b[1..];
    }
  }

  lemma {:induction false} MembersSign(a: seq<Member>, b: seq<Member>, order: DecimalOrder)
    requires ValuesDecimalFree(a) && ValuesDecimalFree(b)
    ensures CompareMembers(b, a, order) == -CompareMembers(a, b, order)
    ensures CompareMembers(a, b, order) == 0 <==> a == b
    decreases a, 0
  {
    hide CompareMembers, CompareValues, DecimalFree, CompareBytes;
    CompareMembersStep(a, b, order);
    CompareMembersStep(b, a, order);
    if a != [] && b != [] {
      assert a[0].val < a[0];
      CompareBytesSign(a[0].key, b[0].key);
      CompareSign(a[0].val, b[0].val, order);
      MembersSign(a[1..], b[1..], order);
      assert a == [a[0]] + a[1..] && b == [b[0]] + b[1..];
    }
  }

  /** The order is transitive, strictly so when either step is strict. */
  lemma {:induction false} CompareTransitive(a: Value, b: Value, c: Value, order: DecimalOrder)
    requires DecimalFree(a) && DecimalFree(b) && DecimalFree(c)
    requires CompareValues(a, b, order) <= 0 && CompareValues(b, c, order) <= 0
    ensures CompareValues(a, c, order) <= 0
    ensures CompareValues(a, b, order) < 0 || CompareValues(b, c, order) < 0 ==> CompareValues(a, c, order) < 0
    decreases a, 1
  {
    hide CompareItems, CompareMembers, CompareBytes;
    if KindRank(a) == KindRank(b) == KindRank(c) {
      if a.Arr? {
        ItemsTransitive(a.items, b.items, c.items, order);
      } else if a.Obj? {
        MembersTransitive(a.members, b.members, c.members, order);
      } else if a.Str? {
        CompareBytesTransitive(a.s, b.s, c.s);
      }
    }
  }

  lemma {:induction false} ItemsTransitive(a: seq<Value>, b: seq<Value>, c: seq<Value>, order: DecimalOrder)
    requires AllDecimalFree(a) && AllDecimalFree(b) && AllDecimalFree(c)
    requires CompareItems(a, b, order) <= 0 && CompareItems(b, c, order) <= 0
    ensures CompareItems(a, c, order) <= 0
    ensures CompareItems(a, b, order) < 0 || CompareItems(b, c, order) < 0 ==> CompareItems(a, c, order) < 0
    decreases a, 0
  {
    hide CompareItems, CompareValues, DecimalFree;
    CompareItemsStep(a, b, order);
    CompareItemsStep(b, c, order);
    CompareItemsStep(a, c, order);
    if a != [] && b != [] && c != [] {
      CompareTransitive(a[0], b[0], c[0], order);
      if CompareValues(a[0], b[0], order) == 0 && CompareValues(b[0], c[0], order) == 0 {
        CompareSign(a[0], b[0], order);
        CompareSign(b[0], c[0], order);
        ItemsTransitive(a[1..], b[1..], c[1..], order);
      }
    }
  }

  lemma {:induction false} MembersTransitive(a: seq<Member>, b: seq<Member>, c: seq<Member>, order: DecimalOrder)
    requires ValuesDecimalFree(a) && ValuesDecimalFree(b) && ValuesDecimalFree(c)
    requires CompareMembers(a, b, order) <= 0 && CompareMembers(b, c, order) <= 0
    ensures CompareMembers(a, c, order) <= 0
    ensures CompareMembers(a, b, order) < 0 || CompareMembers(b, c, order) < 0 ==> CompareMembers(a, c, order) < 0
    decreases a, 0
  {
    hide CompareMembers, CompareValues, DecimalFree, CompareBytes;
    CompareMembersStep(a, b, order);
    CompareMembersStep(b, c, order);
    CompareMembersStep(a, c, order);
    if a != [] && b != [] && c != [] {
      assert a[0].val < a[0];
      CompareBytesTransitive(a[0].key, b[0].key, c[0].key);
      CompareBytesSign(a[0].key, b[0].key);
      CompareBytesSign(b[0].key, c[0].key);
      CompareBytesSign(a[0].key, c[0].key);
      if a[0].key == b[0].key == c[0].key {
        CompareTransitive(a[0].val, b[0].val, c[0].val, order);
        CompareSign(a[0].val, b[0].val, order);
        CompareSign(b[0].val, c[0].val, order);
        if CompareValues(a[0].val, b[0].val, order) == 0 && CompareValues(b[0].val, c[0].val, order) == 0 {
          CompareSign(a[0].val, c[0].val, order);
          MembersTransitive(a[1..], b[1..], c[1..], order);
        }
      }
    }
  }

  // ---- which order it is ----------------------------------------------------------------------------------------

  /** Null before booleans, before numbers, before strings, before arrays, before objects. */
  predicate IsEarlierKind(a: Value, b: Value) {
    || (a.Null? && !b.Null?)
    || (a.Bool? && (b.Int? || b.Decimal? || b.Str? || b.Arr? || b.Obj?))
    || ((a.Int? || a.Decimal?) && (b.Str? || b.Arr? || b.Obj?))
    || (a.Str? && (b.Arr? || b.Obj?))
    || (a.Arr? && b.Obj?)
  }

  /** Kinds decide first; false is before true, and integers go by their values. Two numbers of which one is a double
      are for `compare_decimals`. */
  lemma ScalarsCompare(a: Value, b: Value, order: DecimalOrder)
    ensures IsEarlierKind(a, b) ==> CompareValues(a, b, order) == -1
    ensures IsEarlierKind(b, a) ==> CompareValues(a, b, order) == 1
    ensures a.Null? && b.Null? ==> CompareValues(a, b, order) == 0
    ensures a == Bool(false) && b == Bool(true) ==> CompareValues(a, b, order) == -1
    ensures a == Bool(true) && b == Bool(false) ==> CompareValues(a, b, order) == 1
    ensures a.Bool? && a == b ==> CompareValues(a, b, order) == 0
    ensures a.Int? && b.Int? ==>
      && (a.n < b.n ==> CompareValues(a, b, order) == -1)
      && (a.n > b.n ==> CompareValues(a, b, order) == 1)
      && (a.n == b.n ==> CompareValues(a, b, order) == 0)
    ensures a.Int? && b.Decimal? ==> CompareValues(a, b, order) == order(OfInteger(a.n), b.d)
    ensures a.Decimal? && b.Int? ==> CompareValues(a, b, order) == order(a.d, OfInteger(b.n))
    ensures a.Decimal? && b.Decimal? ==> CompareValues(a, b, order) == order(a.d, b.d)
  {
  }

  /** Strings are decided by the first byte that differs. */
  lemma StringsCompare(a: bytes, b: bytes, n: nat, order: DecimalOrder)
    requires n <= |a| && n <= |b| && a[..n] == b[..n]
    ensures n < |a| && n < |b| && a[n] != b[n] ==>
      CompareValues(Str(a), Str(b), order) == if a[n] < b[n] then -1 else 1
    ensures n == |a| || n == |b| ==>
      CompareValues(Str(a), Str(b), order) == if |a| < |b| then -1 else if |a| > |b| then 1 else 0
  {
    CompareBytesAt(a, b, n);
  }

  /** Arrays are decided by the first items that differ; a proper prefix is less. */
  lemma {:induction false} ArraysCompare(a: seq<Value>, b: seq<Value>, n: nat, order: DecimalOrder)
    requires n <= |a| && n <= |b| && forall i :: 0 <= i < n ==> CompareValues(a[i], b[i], order) == 0
    ensures n < |a| && n < |b| && CompareValues(a[n], b[n], order) != 0 ==>
      CompareValues(Arr(a), Arr(b), order) == CompareValues(a[n], b[n], order)
    ensures n == |a| || n == |b| ==>
      CompareValues(Arr(a), Arr(b), order) == if |a| < |b| then -1 else if |a| > |b| then 1 else 0
    decreases n
  {
    hide CompareItems;
    CompareItemsStep(a, b, order);
    if n > 0 {
      forall i | 0 <= i < n - 1 ensures CompareValues(a[1..][i], b[1..][i], order) == 0 {
        assert a[1..][i] == a[i + 1] && b[1..][i] == b[i + 1];
      }
      ArraysCompare(a[1..], b[1..], n - 1, order);
    }
  }

  /** Objects are decided by the first members that differ, and those by their keys first; a proper prefix is less. */
  lemma {:induction false} ObjectsCompare(a: seq<Member>, b: seq<Member>, n: nat, order: DecimalOrder)
    requires n <= |a| && n <= |b|
    requires forall i :: 0 <= i < n ==> a[i].key == b[i].key && CompareValues(a[i].val, b[i].val, order) == 0
    ensures n < |a| && n < |b| && a[n].key != b[n].key ==>
      CompareValues(Obj(a), Obj(b), order) == CompareValues(Str(a[n].key), Str(b[n].key), order)
    ensures n < |a| && n < |b| && a[n].key == b[n].key && CompareValues(a[n].val, b[n].val, order) != 0 ==>
      CompareValues(Obj(a), Obj(b), order) == CompareValues(a[n].val, b[n].val, order)
    ensures n == |a| || n == |b| ==>
      CompareValues(Obj(a), Obj(b), order) == if |a| < |b| then -1 else if |a| > |b| then 1 else 0
    decreases n
  {
    hide CompareMembers, CompareBytes;
    CompareMembersStep(a, b, order);
    if a != [] && b != [] {
      CompareBytesSign(a[0].key, b[0].key);
    }
    if n > 0 {
      forall i | 0 <= i < n - 1
        ensures a[1..][i].key == b[1..][i].key && CompareValues(a[1..][i].val, b[1..][i].val, order) == 0
      {
        assert a[1..][i] == a[i + 1] && b[1..][i] == b[i + 1];
      }
      ObjectsCompare(a[1..], b[1..], n - 1, order);
    }
  }
}
