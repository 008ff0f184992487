/** The JSON tree, and the operations of the `std::map` that holds an object's members. */
module Json {
  import opened Bytes

  const INT64_MIN: int := -0x8000_0000_0000_0000
  const INT64_MAX: int := 0x7FFF_FFFF_FFFF_FFFF
  type int64 = x: int | INT64_MIN <= x <= INT64_MAX

  /** A double, kept symbolic: what `strtod` reads from a text, or what arithmetic on doubles returns. */
  datatype Double = Read(text: bytes) | OfInteger(n: int64) | Plus(left: Double, right: Double)

  datatype Member = Member(key: bytes, val: Value)

  /** An object lists its members in key order, the order in which `std::map` iterates. */
  datatype Value =
    | Null
    | Bool(b: bool)
    | Int(n: int64)
    | Decimal(d: Double)
    | Str(s: bytes)
    | Arr(items: seq<Value>)
    | Obj(members: seq<Member>)

  ghost predicate AllAbove(key: bytes, ms: seq<Member>) {
    forall i :: 0 <= i < |ms| ==> CompareBytes(key, ms[i].key) < 0
  }

  ghost predicate Sorted(ms: seq<Member>) {
    ms != [] ==> AllAbove(ms[0].key, ms[1..]) && Sorted(ms[1..])
  }

  /** The representation invariant: the members of every object in the tree are in strict key order. */
  ghost predicate WellFormed(v: Value) {
    match v
    case Arr(items) => forall i :: 0 <= i < |items| ==> WellFormed(items[i])
    case Obj(ms) => Sorted(ms) && forall i :: 0 <= i < |ms| ==> WellFormed(ms[i].val)
    case _ => true
  }

  ghost predicate DecimalFree(v: Value) {
    match v
    case Decimal(_) => false
    case Arr(items) => forall i :: 0 <= i < |items| ==> DecimalFree(items[i])
    case Obj(ms) => forall i :: 0 <= i < |ms| ==> DecimalFree(ms[i].val)
    case _ => true
  }

  ghost predicate AllDecimalFree(items: seq<Value>) { forall i :: 0 <= i < |items| ==> DecimalFree(items[i]) }

  ghost predicate ValuesDecimalFree(members: seq<Member>) {
    forall i :: 0 <= i < |members| ==> DecimalFree(members[i].val)
  }

  predicate IsContainer(v: Value) { v.Arr? || v.Obj? }

  predicate IsNumeric(v: Value) { v.Int? || v.Decimal? }

  /** `as_decimal` of a number. */
  function AsDecimal(v: Value): Double
    requires IsNumeric(v)
  {
    if v.Int? then OfInteger(v.n) else v.d
  }

  /** `a.kind() == b.kind()`. */
  predicate SameKind(a: Value, b: Value) {
    match a
    case Null => b.Null?
    case Bool(_) => b.Bool?
    case Int(_) => b.Int?
    case Decimal(_) => b.Decimal?
    case Str(_) => b.Str?
    case Arr(_) => b.Arr?
    case Obj(_) => b.Obj?
  }

  /** `std::map::find`. */
  function Find(ms: seq<Member>, key: bytes): Option<Value> {
    if ms == [] then None
    else if ms[0].key == key then Some(ms[0].val)
    else Find(ms[1..], key)
  }

  /** `map[key] = val`: overwrite, or insert at the place the key order demands. */
  function Put(ms: seq<Member>, key: bytes, val: Value): seq<Member> {
    if ms == [] then [Member(key, val)]
    else
      var c := CompareBytes(key, ms[0].key);
      if c < 0 then [Member(key, val)] + ms
      else if c == 0 then [Member(key, val)] + ms[1..]
      else [ms[0]] + Put(ms[1..], key, val)
  }

  /** `std::map::insert`: does nothing when the key is taken. */
  function Insert(ms: seq<Member>, key: bytes, val: Value): seq<Member> {
    if Find(ms, key).Some? then ms else Put(ms, key, val)
  }

  /** `std::map::erase` by key. */
  function Erase(ms: seq<Member>, key: bytes): seq<Member> {
    if ms == [] then []
    else if ms[0].key == key then ms[1..]
    else [ms[0]] + Erase(ms[1..], key)
  }

  /** `out.insert(m)` for every member of `ms` in turn. */
  function InsertAll(out: seq<Member>, ms: seq<Member>): seq<Member>
    decreases |ms|
  {
    if ms == [] then out else InsertAll(Insert(out, ms[0].key, ms[0].val), ms[1..])
  }

  lemma {:induction false} SortedPair(ms: seq<Member>, i: nat, j: nat)
    requires Sorted(ms) && i < j < |ms|
    ensures CompareBytes(ms[i].key, ms[j].key) < 0
  {
    if i > 0 {
      SortedPair(ms[1..], i - 1, j - 1);
    } else {
      assert ms[j] == ms[1..][j - 1];
    }
  }

  lemma {:induction false} AboveIsAbsent(key: bytes, ms: seq<Member>)
    requires AllAbove(key, ms)
    ensures Find(ms, key) == None
  {
    if ms != [] {
      CompareBytesSign(key, ms[0].key);
      AboveIsAbsent(key, ms[1..]);
    }
  }

  lemma {:induction false} FindAt(ms: seq<Member>, i: nat)
    requires Sorted(ms) && i < |ms|
    ensures Find(ms, ms[i].key) == Some(ms[i].val)
  {
    if i > 0 {
      CompareBytesSign(ms[0].key, ms[1..][i - 1].key);
      FindAt(ms[1..], i - 1);
    }
  }

  /** What `Find` returns is a member. */
  lemma {:induction false} FoundIsMember(ms: seq<Member>, key: bytes) returns (i: nat)
    requires Find(ms, key).Some?
    ensures i < |ms| && ms[i] == Member(key, Find(ms, key).value)
  {
    if ms[0].key == key {
      i := 0;
    } else {
      var j := FoundIsMember(ms[1..], key);
      i := j + 1;
    }
  }

  /** After `map[key] = val` the key holds `val` and every other key what it held. */
  lemma {:induction false} FindPut(ms: seq<Member>, key: bytes, val: Value, k: bytes)
    ensures Find(Put(ms, key, val), k) == if k == key then Some(val) else Find(ms, k)
  {
    if ms != [] {
      CompareBytesSign(key, ms[0].key);
      FindPut(ms[1..], key, val, k);
      var r := Put(ms, key, val);
      assert r[1..] == if CompareBytes(key, ms[0].key) < 0 then ms
                       else if key == ms[0].key then ms[1..] else Put(ms[1..], key, val);
    }
  }

  lemma {:induction false} PutAbove(low: bytes, ms: seq<Member>, key: bytes, val: Value)
    requires AllAbove(low, ms) && CompareBytes(low, key) < 0
    ensures AllAbove(low, Put(ms, key, val))
  {
    if ms != [] {
      PutAbove(low, ms[1..], key, val);
    }
  }

  lemma {:induction false} PutSorted(ms: seq<Member>, key: bytes, val: Value)
    requires Sorted(ms)
    ensures Sorted(Put(ms, key, val))
  {
    if ms != [] {
      var r := Put(ms, key, val);
      CompareBytesSign(key, ms[0].key);
      PutSorted(ms[1..], key, val);
      if CompareBytes(key, ms[0].key) < 0 {
        assert r[1..] == ms;
        forall i | 0 <= i < |ms| ensures CompareBytes(key, ms[i].key) < 0 {
          if i > 0 {
            assert ms[i] == ms[1..][i - 1];
            CompareBytesTransitive(key, ms[0].key, ms[i].key);
          }
        }
      } else if key == ms[0].key {
        assert r[1..] == ms[1..];
      } else {
        assert r[1..] == Put(ms[1..], key, val);
        PutAbove(ms[0].key, ms[1..], key, val);
      }
    }
  }

  /** Every member after `map[key] = val` is the new one or an old one. */
  lemma {:induction false} PutMember(ms: seq<Member>, key: bytes, val: Value, m: Member)
    requires m in Put(ms, key, val)
    ensures m == Member(key, val) || m in ms
  {
    if ms != [] && m != ms[0] && CompareBytes(key, ms[0].key) > 0 {
      assert m in Put(ms[1..], key, val);
      PutMember(ms[1..], key, val, m);
    }
  }

  /** Of two assignments to a key the second wins. */
  lemma {:induction false} PutPut(ms: seq<Member>, key: bytes, a: Value, b: Value)
    ensures Put(Put(ms, key, a), key, b) == Put(ms, key, b)
  {
    CompareBytesSign(key, key);
    if ms != [] && CompareBytes(key, ms[0].key) > 0 {
      PutPut(ms[1..], key, a, b);
      assert Put(ms, key, a)[1..] == Put(ms[1..], key, a);
    }
  }

  /** Assigning what is there already changes nothing. */
  lemma {:induction false} PutFound(ms: seq<Member>, key: bytes)
    requires Sorted(ms) && Find(ms, key).Some?
    ensures Put(ms, key, Find(ms, key).value) == ms
  {
    CompareBytesSign(key, ms[0].key);
    if ms[0].key != key {
      var i := FoundIsMember(ms[1..], key);
      assert CompareBytes(ms[0].key, key) < 0;
      PutFound(ms[1..], key);
    }
    assert ms == [ms[0]] + ms[1..];
  }

  lemma {:induction false} FindErase(ms: seq<Member>, key: bytes, k: bytes)
    requires Sorted(ms)
    ensures Find(Erase(ms, key), k) == if k == key then None else Find(ms, k)
  {
    if ms != [] {
      FindErase(ms[1..], key, k);
      AboveIsAbsent(ms[0].key, ms[1..]);
      assert ms[0].key != key ==> Erase(ms, key)[1..] == Erase(ms[1..], key);
    }
  }

  lemma {:induction false} EraseMember(ms: seq<Member>, key: bytes, i: nat) returns (j: nat)
    requires i < |Erase(ms, key)|
    ensures j < |ms| && ms[j] == Erase(ms, key)[i]
  {
    if ms[0].key == key {
      j := i + 1;
    } else if i == 0 {
      j := 0;
    } else {
      var n := EraseMember(ms[1..], key, i - 1);
      j := n + 1;
    }
  }

  lemma {:induction false} EraseSorted(ms: seq<Member>, key: bytes)
    requires Sorted(ms)
    ensures Sorted(Erase(ms, key))
  {
    if ms != [] && ms[0].key != key {
      EraseSorted(ms[1..], key);
      var rest := Erase(ms[1..], key);
      assert Erase(ms, key)[1..] == rest;
      forall i | 0 <= i < |rest| ensures CompareBytes(ms[0].key, rest[i].key) < 0 {
        var j := EraseMember(ms[1..], key, i);
      }
    }
  }

  /** A key greater than all others goes last. */
  lemma {:induction false} PutLast(ms: seq<Member>, key: bytes, val: Value)
    requires forall i :: 0 <= i < |ms| ==> CompareBytes(ms[i].key, key) < 0
    ensures Put(ms, key, val) == ms + [Member(key, val)]
    ensures Find(ms, key) == None
  {
    if ms != [] {
      CompareBytesSign(ms[0].key, key);
      PutLast(ms[1..], key, val);
    }
  }

  /** Two member lists in key order that answer every lookup alike are the same list. */
  lemma {:induction false} SameLookups(a: seq<Member>, b: seq<Member>)
    requires Sorted(a) && Sorted(b)
    requires forall k :: Find(a, k) == Find(b, k)
    ensures a == b
  {
    if a != [] && b != [] {
      HeadsAgree(a, b);
      AboveIsAbsent(a[0].key, a[1..]);
      AboveIsAbsent(b[0].key, b[1..]);
      forall k ensures Find(a[1..], k) == Find(b[1..], k) {
        assert Find(a, k) == Find(b, k);
      }
      SameLookups(a[1..], b[1..]);
      assert Find(a, a[0].key) == Find(b, a[0].key);
      assert a == [a[0]] + a[1..] && b == [b[0]] + b[1..];
    } else {
      assert b != [] ==> Find(a, b[0].key) == Find(b, b[0].key);
      assert a != [] ==> Find(a, a[0].key) == Find(b, a[0].key);
    }
  }

  lemma HeadsAgree(a: seq<Member>, b: seq<Member>)
    requires Sorted(a) && Sorted(b) && a != [] && b != []
    requires forall k :: Find(a, k) == Find(b, k)
    ensures a[0].key == b[0].key
  {
    CompareBytesSign(a[0].key, b[0].key);
    assert Find(a, b[0].key) == Find(b, b[0].key);
    assert Find(a, a[0].key) == Find(b, a[0].key);
    var i := FoundIsMember(b, a[0].key);
    var j := FoundIsMember(a, b[0].key);
  }

  lemma {:induction false} FindInsertAll(out: seq<Member>, ms: seq<Member>, k: bytes)
    ensures Find(InsertAll(out, ms), k) == if Find(out, k).Some? then Find(out, k) else Find(ms, k)
    decreases |ms|
  {
    hide Put;
    if ms != [] {
      FindPut(out, ms[0].key, ms[0].val, k);
      FindInsertAll(Insert(out, ms[0].key, ms[0].val), ms[1..], k);
    }
  }

  lemma {:induction false} InsertAllSorted(out: seq<Member>, ms: seq<Member>)
    requires Sorted(out)
    ensures Sorted(InsertAll(out, ms))
    decreases |ms|
  {
    hide Put, Sorted;
    if ms != [] {
      PutSorted(out, ms[0].key, ms[0].val);
      InsertAllSorted(Insert(out, ms[0].key, ms[0].val), ms[1..]);
    }
  }

  lemma FoundIsFree(ms: seq<Member>, key: bytes)
    requires ValuesDecimalFree(ms) && Find(ms, key).Some?
    ensures DecimalFree(Find(ms, key).value)
  {
    var i := FoundIsMember(ms, key);
  }

  lemma InsertAllStep(out: seq<Member>, ms: seq<Member>)
    ensures InsertAll(out, ms) == if ms == [] then out else InsertAll(Insert(out, ms[0].key, ms[0].val), ms[1..])
  {
    hide Insert;
  }

  lemma FindNothing(key: bytes)
    ensures Find([], key) == None
  {
  }
}
