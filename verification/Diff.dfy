/** `diff`: what two values share and what each has of its own, and how much of the input the result preserves. */
module Differences {
  import opened Bytes
  import opened Json
  import opened Ordering

  /** `diff_result`, whose three parts start as null. */
  datatype Parts = Parts(same: Value, left: Value, right: Value)

  datatype Items = Items(same: seq<Value>, left: seq<Value>, right: seq<Value>)

  datatype Fields = Fields(same: seq<Member>, left: seq<Member>, right: seq<Member>)

  /** `operator==`. */
  predicate AreEqual(x: Value, y: Value, order: DecimalOrder) { CompareValues(x, y, order) == 0 }

  function DiffOf(l: Value, r: Value, order: DecimalOrder): Parts
    decreases l, 1
  {
    if AreEqual(l, r, order) then Parts(l, Null, Null)
    else if l.Arr? && r.Arr? then
      var d := DiffItems(l.items, r.items, order);
      Parts(Arr(d.same), Arr(d.left), Arr(d.right))
    else if l.Obj? && r.Obj? then
      var d := DiffMembers(l.members, r.members, Fields([], [], []), order);
      Parts(Obj(d.same), Obj(d.left), Obj(d.right))
    else Parts(Null, l, r)
  }

  /** Item by item; what the longer array has left over is its own. */
  function DiffItems(ls: seq<Value>, rs: seq<Value>, order: DecimalOrder): Items
    decreases ls, 0
  {
    if ls == [] || rs == [] then Items([], ls, rs)
    else
      var d := DiffOf(ls[0], rs[0], order);
      var rest := DiffItems(ls[1..], rs[1..], order);
      Items([d.same] + rest.same, [d.left] + rest.left, [d.right] + rest.right)
  }

  /** The members of `ls` in turn, each erasing its partner from `rs`; what is left of `rs` is the right's own. */
  function DiffMembers(ls: seq<Member>, rs: seq<Member>, out: Fields, order: DecimalOrder): Fields
    decreases ls, 0
  {
    if ls == [] then out.(right := InsertAll(out.right, rs))
    else
      var k, x := ls[0].key, ls[0].val;
      assert x < ls[0];
      match Find(rs, k)
      case None => DiffMembers(ls[1..], rs, out.(left := Insert(out.left, k, x)), order)
      case Some(y) => DiffMembers(ls[1..], Erase(rs, k), Placed(out, k, x, y, order), order)
  }

  /** What a key with the values `x` and `y` adds. The shared part of unequal values is not kept. */
  function Placed(out: Fields, k: bytes, x: Value, y: Value, order: DecimalOrder): Fields
    decreases x, 2
  {
    if AreEqual(x, y, order) then out.(same := Put(out.same, k, x))
    else
      var d := DiffOf(x, y, order);
      out.(left := Put(out.left, k, d.left), right := Put(out.right, k, d.right))
  }

  // ---- the method -----------------------------------------------------------------------------------------------

  /** `diff`. */
  method Diff(left: Value, right: Value, order: DecimalOrder) returns (result: Parts)
    ensures result == DiffOf(left, right, order)
    decreases left, 1
  {
    hide DiffItems, DiffMembers, CompareValues;
    var cmp := Compare(left, right, order);
    if cmp == 0 {
      return Parts(left, Null, Null);
    } else if !SameKind(left, right) {
      return Parts(Null, left, right);
    }
    match left {
      case Arr(items) =>
        result := DiffArrays(items, right.items, order);
      case Obj(ms) =>
        result := DiffObjects(ms, right.members, order);
      case _ =>
        result := Parts(Null, left, right);
    }
  }

  method DiffArrays(left: seq<Value>, right: seq<Value>, order: DecimalOrder) returns (result: Parts)
    ensures var d := DiffItems(left, right, order); result == Parts(Arr(d.same), Arr(d.left), Arr(d.right))
    decreases left, 0
  {
    hide DiffItems, DiffOf;
    var s: seq<Value>, l: seq<Value>, r: seq<Value> := [], [], [];
    var n := if |left| < |right| then |left| else |right|;
    var idx := 0;
    assert left[0..] == left && right[0..] == right;
    while idx < n
      invariant 0 <= idx <= n
      invariant s + DiffItems(left[idx..], right[idx..], order).same == DiffItems(left, right, order).same
      invariant l + DiffItems(left[idx..], right[idx..], order).left == DiffItems(left, right, order).left
      invariant r + DiffItems(left[idx..], right[idx..], order).right == DiffItems(left, right, order).right
    {
      DiffItemsStep(left[idx..], right[idx..], order);
      assert left[idx..][1..] == left[idx + 1..] && right[idx..][1..] == right[idx + 1..];
      var sub := Diff(left[idx], right[idx], order);
      s, l, r := s + [sub.same], l + [sub.left], r + [sub.right];
      idx := idx + 1;
    }
    DiffItemsStep(left[n..], right[n..], order);
    assert left[n..] == (if |left| > |right| then left[|right|..] else []);
    assert right[n..] == (if |left| < |right| then right[|left|..] else []);
    assert s + [] == s && l + [] == l && r + [] == r;
    if |left| > |right| {
      l := l + left[|right|..];
    } else if |left| < |right| {
      r := r + right[|left|..];
    }
    return Parts(Arr(s), Arr(l), Arr(r));
  }

  lemma DiffItemsStep(ls: seq<Value>, rs: seq<Value>, order: DecimalOrder)
    ensures ls == [] || rs == [] ==> DiffItems(ls, rs, order) == Items([], ls, rs)
    ensures ls != [] && rs != [] ==>
      var d := DiffOf(ls[0], rs[0], order);
      var rest := DiffItems(ls[1..], rs[1..], order);
      DiffItems(ls, rs, order) == Items([d.same] + rest.same, [d.left] + rest.left, [d.right] + rest.right)
  {
    hide DiffOf;
  }

  method DiffObjects(left: seq<Member>, right: seq<Member>, order: DecimalOrder) returns (result: Parts)
    ensures var d := DiffMembers(left, right, Fields([], [], []), order);
      result == Parts(Obj(d.same), Obj(d.left), Obj(d.right))
    decreases left, 0
  {
    hide DiffMembers, DiffOf, CompareValues, Put, Erase, Find, InsertAll;
    var out := Fields([], [], []);
    var ls, rs := left, right;
    ghost var i := 0;
    assert left[0..] == left;
    while ls != []
      invariant i <= |left| && ls == left[i..]
      invariant DiffMembers(ls, rs, out, order) == DiffMembers(left, right, Fields([], [], []), order)
      decreases |ls|
    {
      DiffMembersStep(ls, rs, out, order);
      var k, x := ls[0].key, ls[0].val;
      var y := Find(rs, k);
      if y.None? {
        out := out.(left := Insert(out.left, k, x));
      } else {
        assert x < left[i];
        var cmp := Compare(x, y.value, order);
        if cmp == 0 {
          out := out.(same := Put(out.same, k, x));
        } else {
          var sub := Diff(x, y.value, order);
          out := out.(left := Put(out.left, k, sub.left), right := Put(out.right, k, sub.right));
        }
        rs := Erase(rs, k);
      }
      ls := ls[1..];
      i := i + 1;
    }
    DiffMembersStep(ls, rs, out, order);
    while rs != []
      invariant InsertAll(out.right, rs) == DiffMembers(left, right, Fields([], [], []), order).right
      invariant out.same == DiffMembers(left, right, Fields([], [], []), order).same
      invariant out.left == DiffMembers(left, right, Fields([], [], []), order).left
      decreases |rs|
    {
      InsertAllStep(out.right, rs);
      out := out.(right := Insert(out.right, rs[0].key, rs[0].val));
      rs := rs[1..];
    }
    InsertAllStep(out.right, rs);
    return Parts(Obj(out.same), Obj(out.left), Obj(out.right));
  }

  lemma DiffMembersStep(ls: seq<Member>, rs: seq<Member>, out: Fields, order: DecimalOrder)
    ensures DiffMembers(ls, rs, out, order) ==
      if ls == [] then out.(right := InsertAll(out.right, rs))
      else
        var k, x := ls[0].key, ls[0].val;
        match Find(rs, k)
        case None => DiffMembers(ls[1..], rs, out.(left := Insert(out.left, k, x)), order)
        case Some(y) => DiffMembers(ls[1..], Erase(rs, k), Placed(out, k, x, y, order), order)
  {
    hide Placed, Put, Erase, Insert;
  }

  // ---- which key goes where -------------------------------------------------------------------------------------

  lemma PlacedLookups(out: Fields, k: bytes, x: Value, y: Value, q: bytes, order: DecimalOrder)
    ensures Find(Placed(out, k, x, y, order).same, q)
         == if q == k && AreEqual(x, y, order) then Some(x) else Find(out.same, q)
    ensures Find(Placed(out, k, x, y, order).left, q)
         == if q == k && !AreEqual(x, y, order) then Some(DiffOf(x, y, order).left) else Find(out.left, q)
    ensures Find(Placed(out, k, x, y, order).right, q)
         == if q == k && !AreEqual(x, y, order) then Some(DiffOf(x, y, order).right) else Find(out.right, q)
  {
    hide DiffOf, Find, Put, AreEqual;
    FindPut(out.same, k, x, q);
    FindPut(out.left, k, DiffOf(x, y, order).left, q);
    FindPut(out.right, k, DiffOf(x, y, order).right, q);
  }

  /** The fate of one key. */
  ghost predicate Sorts(ls: seq<Member>, rs: seq<Member>, d: Fields, k: bytes, order: DecimalOrder) {
    match Find(ls, k)
    case None => Find(d.same, k) == None && Find(d.left, k) == None && Find(d.right, k) == Find(rs, k)
    case Some(x) =>
      match Find(rs, k)
      case None => Find(d.same, k) == None && Find(d.left, k) == Some(x) && Find(d.right, k) == None
      case Some(y) =>
        if AreEqual(x, y, order) then Find(d.same, k) == Some(x) && Find(d.left, k) == None && Find(d.right, k) == None
        else
          && Find(d.same, k) == None
          && Find(d.left, k) == Some(DiffOf(x, y, order).left)
          && Find(d.right, k) == Some(DiffOf(x, y, order).right)
  }

  /** A key that the left no longer has keeps what it got. */
  lemma {:induction false} SettledKey(ls: seq<Member>, rs: seq<Member>, out: Fields, k: bytes, order: DecimalOrder)
    requires Sorted(ls) && Sorted(rs) && Find(ls, k) == None
    ensures var d := DiffMembers(ls, rs, out, order);
      && Find(d.same, k) == Find(out.same, k)
      && Find(d.left, k) == Find(out.left, k)
      && Find(d.right, k) == if Find(out.right, k).Some? then Find(out.right, k) else Find(rs, k)
    decreases |ls|
  {
    hide DiffMembers, Placed, DiffOf, Put, Erase, AreEqual;
    DiffMembersStep(ls, rs, out, order);
    if ls == [] {
      FindInsertAll(out.right, rs, k);
    } else {
      var key, x := ls[0].key, ls[0].val;
      match Find(rs, key)
      case None =>
        FindPut(out.left, key, x, k);
        SettledKey(ls[1..], rs, out.(left := Insert(out.left, key, x)), k, order);
      case Some(y) =>
        PlacedLookups(out, key, x, y, k, order);
        EraseSorted(rs, key);
        FindErase(rs, key, k);
        SettledKey(ls[1..], Erase(rs, key), Placed(out, key, x, y, order), k, order);
    }
  }

  predicate Unplaced(out: Fields, k: bytes) {
    Find(out.same, k) == None && Find(out.left, k) == None && Find(out.right, k) == None
  }

  lemma {:induction false} KeySorts(ls: seq<Member>, rs: seq<Member>, out: Fields, k: bytes, order: DecimalOrder)
    requires Sorted(ls) && Sorted(rs) && Unplaced(out, k)
    ensures Sorts(ls, rs, DiffMembers(ls, rs, out, order), k, order)
    decreases |ls|
  {
    hide DiffMembers, Placed, DiffOf, Put, Erase, AreEqual;
    DiffMembersStep(ls, rs, out, order);
    if ls == [] {
      FindInsertAll(out.right, rs, k);
    } else {
      var key, x := ls[0].key, ls[0].val;
      AboveIsAbsent(key, ls[1..]);
      match Find(rs, key)
      case None =>
        var next := out.(left := Insert(out.left, key, x));
        FindPut(out.left, key, x, k);
        if key == k {
          SettledKey(ls[1..], rs, next, k, order);
        } else {
          KeySorts(ls[1..], rs, next, k, order);
        }
      case Some(y) =>
        var next := Placed(out, key, x, y, order);
        PlacedLookups(out, key, x, y, k, order);
        EraseSorted(rs, key);
        FindErase(rs, key, k);
        if key == k {
          SettledKey(ls[1..], Erase(rs, key), next, k, order);
        } else {
          KeySorts(ls[1..], Erase(rs, key), next, k, order);
        }
    }
  }

  /** On unequal objects every key of either side goes to exactly its place: shared with an equal value to `same`,
      shared with unequal values to both sides, and unshared to its own side. */
  lemma KeysPartition(ls: seq<Member>, rs: seq<Member>, k: bytes, order: DecimalOrder)
    requires Sorted(ls) && Sorted(rs) && !AreEqual(Obj(ls), Obj(rs), order)
    ensures var d := DiffOf(Obj(ls), Obj(rs), order);
      && d.same.Obj? && d.left.Obj? && d.right.Obj?
      && Sorts(ls, rs, Fields(d.same.members, d.left.members, d.right.members), k, order)
      && (Find(ls, k).Some? && Find(rs, k).None? ==> Find(d.left.members, k) == Find(ls, k))
      && (Find(ls, k).None? && Find(rs, k).Some? ==> Find(d.right.members, k) == Find(rs, k))
      && (Find(ls, k).Some? && Find(rs, k).Some? ==>
            var (x, y) := (Find(ls, k).value, Find(rs, k).value);
            if AreEqual(x, y, order) then Find(d.same.members, k) == Some(x)
            else Find(d.left.members, k) == Some(DiffOf(x, y, order).left)
                 && Find(d.right.members, k) == Some(DiffOf(x, y, order).right))
      && (Find(ls, k).Some? <==> Find(d.same.members, k).Some? || Find(d.left.members, k).Some?)
      && (Find(rs, k).Some? <==> Find(d.same.members, k).Some? || Find(d.right.members, k).Some?)
      && (Find(d.same.members, k).Some? ==> Find(d.left.members, k).None? && Find(d.right.members, k).None?)
      && (Find(d.left.members, k).Some? && Find(d.right.members, k).Some?
          <==> Find(ls, k).Some? && Find(rs, k).Some? && !AreEqual(Find(ls, k).value, Find(rs, k).value, order))
  {
    hide DiffMembers, Find, AreEqual;
    assert Unplaced(Fields([], [], []), k) by { FindNothing(k); }
    KeySorts(ls, rs, Fields([], [], []), k, order);
    ObjectParts(ls, rs, order);
  }

  lemma ObjectParts(ls: seq<Member>, rs: seq<Member>, order: DecimalOrder)
    requires !AreEqual(Obj(ls), Obj(rs), order)
    ensures DiffOf(Obj(ls), Obj(rs), order) == (var d := DiffMembers(ls, rs, Fields([], [], []), order);
                                         Parts(Obj(d.same), Obj(d.left), Obj(d.right)))
  {
  }

  lemma {:induction false} DiffIsSorted(ls: seq<Member>, rs: seq<Member>, out: Fields, order: DecimalOrder)
    requires Sorted(out.same) && Sorted(out.left) && Sorted(out.right)
    ensures var d := DiffMembers(ls, rs, out, order); Sorted(d.same) && Sorted(d.left) && Sorted(d.right)
    decreases |ls|
  {
    hide DiffMembers, DiffOf, Put, Erase, Sorted, Find;
    DiffMembersStep(ls, rs, out, order);
    if ls == [] {
      InsertAllSorted(out.right, rs);
    } else {
      var k, x := ls[0].key, ls[0].val;
      PutSorted(out.left, k, x);
      match Find(rs, k)
      case None => DiffIsSorted(ls[1..], rs, out.(left := Insert(out.left, k, x)), order);
      case Some(y) =>
        PutSorted(out.same, k, x);
        PutSorted(out.left, k, DiffOf(x, y, order).left);
        PutSorted(out.right, k, DiffOf(x, y, order).right);
        DiffIsSorted(ls[1..], Erase(rs, k), Placed(out, k, x, y, order), order);
    }
  }

  // ---- symmetry -------------------------------------------------------------------------------------------------

  /** Without decimals, equality is being the same tree. */
  lemma EqualIsSame(x: Value, y: Value, order: DecimalOrder)
    requires DecimalFree(x) && DecimalFree(y)
    ensures AreEqual(x, y, order) <==> x == y
  {
    CompareSign(x, y, order);
  }

  /** Exchanging the inputs exchanges the sides. */
  lemma {:induction false} DiffSymmetric(l: Value, r: Value, order: DecimalOrder)
    requires WellFormed(l) && WellFormed(r) && DecimalFree(l) && DecimalFree(r)
    ensures var d := DiffOf(l, r, order); DiffOf(r, l, order) == Parts(d.same, d.right, d.left)
    decreases l, 1
  {
    hide DiffMembers, DiffItems, Sorted, AreEqual;
    EqualIsSame(l, r, order);
    EqualIsSame(r, l, order);
    if l.Arr? && r.Arr? {
      ItemsSymmetric(l.items, r.items, order);
    } else if l.Obj? && r.Obj? && l != r {
      MembersSymmetric(l.members, r.members, order);
    }
  }

  lemma {:induction false} ItemsSymmetric(ls: seq<Value>, rs: seq<Value>, order: DecimalOrder)
    requires forall i :: 0 <= i < |ls| ==> WellFormed(ls[i]) && DecimalFree(ls[i])
    requires forall i :: 0 <= i < |rs| ==> WellFormed(rs[i]) && DecimalFree(rs[i])
    ensures var d := DiffItems(ls, rs, order); DiffItems(rs, ls, order) == Items(d.same, d.right, d.left)
    decreases ls, 0
  {
    hide DiffOf, DiffItems, WellFormed;
    DiffItemsStep(ls, rs, order);
    DiffItemsStep(rs, ls, order);
    if ls != [] && rs != [] {
      DiffSymmetric(ls[0], rs[0], order);
      ItemsSymmetric(ls[1..], rs[1..], order);
    }
  }

  lemma {:induction false} MembersSymmetric(ls: seq<Member>, rs: seq<Member>, order: DecimalOrder)
    requires WellFormed(Obj(ls)) && WellFormed(Obj(rs)) && DecimalFree(Obj(ls)) && DecimalFree(Obj(rs))
    ensures var a := DiffMembers(ls, rs, Fields([], [], []), order);
      DiffMembers(rs, ls, Fields([], [], []), order) == Fields(a.same, a.right, a.left)
    decreases ls, 0
  {
    hide DiffMembers, DiffOf, Find;
    var none := Fields([], [], []);
    var a, b := DiffMembers(ls, rs, none, order), DiffMembers(rs, ls, none, order);
    DiffIsSorted(ls, rs, none, order);
    DiffIsSorted(rs, ls, none, order);
    forall k
      ensures Find(b.same, k) == Find(a.same, k) && Find(b.left, k) == Find(a.right, k)
           && Find(b.right, k) == Find(a.left, k)
    {
      FindNothing(k);
      KeySorts(ls, rs, none, k, order);
      KeySorts(rs, ls, none, k, order);
      if Find(ls, k).Some? && Find(rs, k).Some? {
        var i := FoundIsMember(ls, k);
        var j := FoundIsMember(rs, k);
        assert ls[i].val < ls[i];
        EqualIsSame(ls[i].val, rs[j].val, order);
        EqualIsSame(rs[j].val, ls[i].val, order);
        DiffSymmetric(ls[i].val, rs[j].val, order);
      }
    }
    SameLookups(b.same, a.same);
    SameLookups(b.left, a.right);
    SameLookups(b.right, a.left);
  }

  // ---- what the result preserves --------------------------------------------------------------------------------

  /** Put the shared part and one side's own part together again. */
  function Overlay(same: Value, own: Value): Value
    decreases same, 1
  {
    if own.Null? then same
    else if same.Arr? && own.Arr? then Arr(OverlayItems(same.items, own.items))
    else if same.Obj? && own.Obj? then Obj(InsertAll(own.members, same.members))
    else own
  }

  function OverlayItems(same: seq<Value>, own: seq<Value>): seq<Value>
    decreases same, 0
  {
    if same == [] then own
    else if own == [] then same
    else [Overlay(same[0], own[0])] + OverlayItems(same[1..], own[1..])
  }

  /** Two unequal values without a common part: `diff` leaves all of the left one on the left. */
  ghost predicate NothingShared(l: Value, r: Value) {
    if l.Arr? && r.Arr? then
      forall i :: 0 <= i < |l.items| && i < |r.items| ==>
        l.items[i] == Null || (l.items[i] != r.items[i] && NothingShared(l.items[i], r.items[i]))
    else if l.Obj? && r.Obj? then
      forall i :: 0 <= i < |l.members| && Find(r.members, l.members[i].key).Some? ==>
        var y := Find(r.members, l.members[i].key).value;
        l.members[i].val != y && NothingShared(l.members[i].val, y)
    else true
  }

  /** No member that both sides have, with different values, has a part in common. */
  ghost predicate Conserves(l: Value, r: Value) {
    if l.Arr? && r.Arr? then
      forall i :: 0 <= i < |l.items| && i < |r.items| ==> Conserves(l.items[i], r.items[i])
    else if l.Obj? && r.Obj? then
      forall i :: 0 <= i < |l.members| && Find(r.members, l.members[i].key).Some? ==>
        var y := Find(r.members, l.members[i].key).value;
        l.members[i].val == y || NothingShared(l.members[i].val, y)
    else true
  }

  lemma {:induction false} LeftIsAll(l: Value, r: Value, order: DecimalOrder)
    requires WellFormed(l) && WellFormed(r) && DecimalFree(l) && DecimalFree(r) && l != r
    ensures DiffOf(l, r, order).left == l <==> NothingShared(l, r)
    decreases l, 1
  {
    hide DiffItems, DiffMembers, Sorted, AreEqual;
    EqualIsSame(l, r, order);
    if l.Arr? && r.Arr? {
      ItemsLeftIsAll(l.items, r.items, order);
    } else if l.Obj? && r.Obj? {
      MembersLeftIsAll(l.members, r.members, order);
    }
  }

  lemma {:induction false} ItemsLeftIsAll(ls: seq<Value>, rs: seq<Value>, order: DecimalOrder)
    requires WellFormed(Arr(ls)) && WellFormed(Arr(rs)) && DecimalFree(Arr(ls)) && DecimalFree(Arr(rs))
    ensures DiffItems(ls, rs, order).left == ls <==> NothingShared(Arr(ls), Arr(rs))
    decreases ls, 0
  {
    hide DiffItems, AreEqual;
    ItemParts(ls, rs, order);
    var left := DiffItems(ls, rs, order).left;
    forall i | 0 <= i < |ls| && i < |rs|
      ensures left[i] == ls[i] <==> ls[i] == Null || (ls[i] != rs[i] && NothingShared(ls[i], rs[i]))
    {
      EqualIsSame(ls[i], rs[i], order);
      if ls[i] != rs[i] {
        LeftIsAll(ls[i], rs[i], order);
      }
    }
  }

  /** The left part of the member `i`. */
  lemma LeftAt(ls: seq<Member>, rs: seq<Member>, i: nat, order: DecimalOrder)
    requires Sorted(ls) && Sorted(rs) && i < |ls|
    ensures var d := DiffMembers(ls, rs, Fields([], [], []), order);
      var k, x := ls[i].key, ls[i].val;
      match Find(rs, k)
      case None => Find(d.left, k) == Some(x) && Find(d.same, k) == None
      case Some(y) =>
        if AreEqual(x, y, order) then Find(d.left, k) == None && Find(d.same, k) == Some(x)
        else Find(d.left, k) == Some(DiffOf(x, y, order).left) && Find(d.same, k) == None
  {
    hide DiffMembers, DiffOf, Find;
    FindAt(ls, i);
    FindNothing(ls[i].key);
    KeySorts(ls, rs, Fields([], [], []), ls[i].key, order);
  }

  lemma PartnersEqual(ls: seq<Member>, rs: seq<Member>, i: nat, order: DecimalOrder)
    requires DecimalFree(Obj(ls)) && DecimalFree(Obj(rs)) && i < |ls|
    ensures var y := Find(rs, ls[i].key); y.Some? ==> (AreEqual(ls[i].val, y.value, order) <==> ls[i].val == y.value)
  {
    hide Find, AreEqual;
    if Find(rs, ls[i].key).Some? {
      FoundIsFree(rs, ls[i].key);
      EqualIsSame(ls[i].val, Find(rs, ls[i].key).value, order);
    }
  }

  lemma NotOnTheLeft(ls: seq<Member>, rs: seq<Member>, k: bytes, order: DecimalOrder)
    requires Sorted(ls) && Sorted(rs) && Find(ls, k) == None
    ensures Find(DiffMembers(ls, rs, Fields([], [], []), order).left, k) == None
    ensures Find(DiffMembers(ls, rs, Fields([], [], []), order).same, k) == None
  {
    hide DiffMembers, DiffOf, Find;
    FindNothing(k);
    KeySorts(ls, rs, Fields([], [], []), k, order);
  }

  /** The member `i` shows no loss. */
  ghost predicate MemberNotShared(ls: seq<Member>, rs: seq<Member>, i: nat)
    requires i < |ls|
  {
    Find(rs, ls[i].key).Some? ==>
      ls[i].val != Find(rs, ls[i].key).value && NothingShared(ls[i].val, Find(rs, ls[i].key).value)
  }

  lemma {:induction false} MembersLeftIsAll(ls: seq<Member>, rs: seq<Member>, order: DecimalOrder)
    requires WellFormed(Obj(ls)) && WellFormed(Obj(rs)) && DecimalFree(Obj(ls)) && DecimalFree(Obj(rs))
    ensures DiffMembers(ls, rs, Fields([], [], []), order).left == ls <==> NothingShared(Obj(ls), Obj(rs))
    decreases ls, 0
  {
    hide DiffMembers, DiffOf, Find;
    var left := DiffMembers(ls, rs, Fields([], [], []), order).left;
    forall i | 0 <= i < |ls|
      ensures Find(left, ls[i].key) == Find(ls, ls[i].key) <==> MemberNotShared(ls, rs, i)
    {
      MemberLeftIsAll(ls, rs, i, order);
    }
    DiffIsSorted(ls, rs, Fields([], [], []), order);
    if forall i :: 0 <= i < |ls| ==> MemberNotShared(ls, rs, i) {
      forall k ensures Find(left, k) == Find(ls, k) {
        if Find(ls, k).None? {
          NotOnTheLeft(ls, rs, k, order);
        } else {
          var i := FoundIsMember(ls, k);
        }
      }
      SameLookups(left, ls);
    }
    assert NothingShared(Obj(ls), Obj(rs)) <==> forall i :: 0 <= i < |ls| ==> MemberNotShared(ls, rs, i);
  }

  lemma {:induction false} MemberLeftIsAll(ls: seq<Member>, rs: seq<Member>, i: nat, order: DecimalOrder)
    requires WellFormed(Obj(ls)) && WellFormed(Obj(rs)) && DecimalFree(Obj(ls)) && DecimalFree(Obj(rs)) && i < |ls|
    ensures Find(DiffMembers(ls, rs, Fields([], [], []), order).left, ls[i].key) == Find(ls, ls[i].key)
       <==> MemberNotShared(ls, rs, i)
    decreases ls, 0, 0
  {
    hide DiffMembers, DiffOf, Find, NothingShared, Sorted, AreEqual;
    FindAt(ls, i);
    LeftAt(ls, rs, i, order);
    PartnersEqual(ls, rs, i, order);
    if Find(rs, ls[i].key).Some? && ls[i].val != Find(rs, ls[i].key).value {
      var j := FoundIsMember(rs, ls[i].key);
      assert ls[i].val < ls[i];
      LeftIsAll(ls[i].val, rs[j].val, order);
    }
  }

  lemma {:induction false} OverlayItemsAt(same: seq<Value>, own: seq<Value>)
    requires |same| <= |own|
    ensures |OverlayItems(same, own)| == |own|
    ensures forall i :: 0 <= i < |own| ==>
      OverlayItems(same, own)[i] == if i < |same| then Overlay(same[i], own[i]) else own[i]
    decreases |same|
  {
    hide Overlay;
    if same != [] {
      OverlayItemsAt(same[1..], own[1..]);
    }
  }

  lemma {:induction false} ConservesItself(v: Value)
    requires WellFormed(v)
    ensures Conserves(v, v)
  {
    if v.Arr? {
      forall i | 0 <= i < |v.items| ensures Conserves(v.items[i], v.items[i]) {
        ConservesItself(v.items[i]);
      }
    } else if v.Obj? {
      forall i | 0 <= i < |v.members|
        ensures Find(v.members, v.members[i].key) == Some(v.members[i].val)
      {
        FindAt(v.members, i);
      }
    }
  }

  /** Overlaying `same` with `left` gives the left input back exactly when `diff` drops nothing. */
  lemma {:induction false} RebuildsLeft(l: Value, r: Value, order: DecimalOrder)
    requires WellFormed(l) && WellFormed(r) && DecimalFree(l) && DecimalFree(r)
    ensures Overlay(DiffOf(l, r, order).same, DiffOf(l, r, order).left) == l <==> Conserves(l, r)
    decreases l, 1
  {
    hide DiffItems, DiffMembers, Sorted, OverlayItems, AreEqual;
    EqualIsSame(l, r, order);
    if l == r {
      ConservesItself(l);
    } else if l.Arr? && r.Arr? {
      ItemsRebuildLeft(l.items, r.items, order);
    } else if l.Obj? && r.Obj? {
      MembersRebuildLeft(l.members, r.members, order);
    }
  }

  lemma {:induction false} ItemsRebuildLeft(ls: seq<Value>, rs: seq<Value>, order: DecimalOrder)
    requires WellFormed(Arr(ls)) && WellFormed(Arr(rs)) && DecimalFree(Arr(ls)) && DecimalFree(Arr(rs))
    ensures var d := DiffItems(ls, rs, order);
      OverlayItems(d.same, d.left) == ls <==> Conserves(Arr(ls), Arr(rs))
    decreases ls, 0
  {
    hide DiffItems, OverlayItems;
    ItemParts(ls, rs, order);
    var d := DiffItems(ls, rs, order);
    OverlayItemsAt(d.same, d.left);
    forall i | 0 <= i < |ls| && i < |rs|
      ensures OverlayItems(d.same, d.left)[i] == ls[i] <==> Conserves(ls[i], rs[i])
    {
      RebuildsLeft(ls[i], rs[i], order);
    }
  }

  ghost predicate MemberConserves(ls: seq<Member>, rs: seq<Member>, i: nat)
    requires i < |ls|
  {
    Find(rs, ls[i].key).Some? ==>
      ls[i].val == Find(rs, ls[i].key).value || NothingShared(ls[i].val, Find(rs, ls[i].key).value)
  }

  lemma MembersRebuildLeft(ls: seq<Member>, rs: seq<Member>, order: DecimalOrder)
    requires WellFormed(Obj(ls)) && WellFormed(Obj(rs)) && DecimalFree(Obj(ls)) && DecimalFree(Obj(rs))
    ensures var d := DiffMembers(ls, rs, Fields([], [], []), order);
      InsertAll(d.left, d.same) == ls <==> Conserves(Obj(ls), Obj(rs))
  {
    hide DiffMembers, DiffOf, Find, InsertAll;
    var d := DiffMembers(ls, rs, Fields([], [], []), order);
    var all := InsertAll(d.left, d.same);
    forall i | 0 <= i < |ls|
      ensures Find(all, ls[i].key) == Find(ls, ls[i].key) <==> MemberConserves(ls, rs, i)
    {
      FindInsertAll(d.left, d.same, ls[i].key);
      MemberLeftIsAll(ls, rs, i, order);
      PartnersEqual(ls, rs, i, order);
      LeftAt(ls, rs, i, order);
      FindAt(ls, i);
    }
    DiffIsSorted(ls, rs, Fields([], [], []), order);
    InsertAllSorted(d.left, d.same);
    if forall i :: 0 <= i < |ls| ==> MemberConserves(ls, rs, i) {
      forall k ensures Find(all, k) == Find(ls, k) {
        if Find(ls, k).None? {
          FindInsertAll(d.left, d.same, k);
          NotOnTheLeft(ls, rs, k, order);
        } else {
          var i := FoundIsMember(ls, k);
        }
      }
      SameLookups(all, ls);
    }
    assert Conserves(Obj(ls), Obj(rs)) <==> forall i :: 0 <= i < |ls| ==> MemberConserves(ls, rs, i);
  }

  /** The same on the other side. */
  lemma RebuildsRight(l: Value, r: Value, order: DecimalOrder)
    requires WellFormed(l) && WellFormed(r) && DecimalFree(l) && DecimalFree(r)
    ensures Overlay(DiffOf(l, r, order).same, DiffOf(l, r, order).right) == r <==> Conserves(r, l)
  {
    hide DiffOf, Overlay, Conserves;
    DiffSymmetric(l, r, order);
    RebuildsLeft(r, l, order);
  }

  ghost predicate ObjectFree(v: Value) {
    match v
    case Obj(_) => false
    case Arr(items) => forall i :: 0 <= i < |items| ==> ObjectFree(items[i])
    case _ => true
  }

  lemma {:induction false} ArraysConserve(l: Value, r: Value)
    requires ObjectFree(l)
    ensures Conserves(l, r)
  {
    if l.Arr? && r.Arr? {
      forall i | 0 <= i < |l.items| && i < |r.items| ensures Conserves(l.items[i], r.items[i]) {
        ArraysConserve(l.items[i], r.items[i]);
      }
    }
  }

  /** Trees of arrays and scalars are conserved on both sides. */
  lemma ArraysRebuild(l: Value, r: Value, order: DecimalOrder)
    requires WellFormed(l) && WellFormed(r) && DecimalFree(l) && DecimalFree(r) && ObjectFree(l) && ObjectFree(r)
    ensures var d := DiffOf(l, r, order); Overlay(d.same, d.left) == l && Overlay(d.same, d.right) == r
  {
    ArraysConserve(l, r);
    ArraysConserve(r, l);
    RebuildsLeft(l, r, order);
    RebuildsRight(l, r, order);
  }

  /** For example, of [1,2] and [1,3] under one key the 1 is nowhere in the result. */
  lemma SharedPartIsLost(k: bytes, order: DecimalOrder)
    ensures DiffOf(Obj([Member(k, Arr([Int(1), Int(2)]))]), Obj([Member(k, Arr([Int(1), Int(3)]))]), order)
         == Parts(Obj([]), Obj([Member(k, Arr([Null, Int(2)]))]), Obj([Member(k, Arr([Null, Int(3)]))]))
  {
    hide DiffOf, DiffItems, DiffMembers;
    var x, y := Arr([Int(1), Int(2)]), Arr([Int(1), Int(3)]);
    OneAndTwo(order);
    var ls, rs := [Member(k, x)], [Member(k, y)];
    assert x.items[1] != y.items[1];
    assert ls[0] != rs[0];
    assert ls[1..] == [] && Erase(rs, k) == [];
    DiffMembersStep(ls, rs, Fields([], [], []), order);
    DiffMembersStep([], [], Placed(Fields([], [], []), k, x, y, order), order);
    EqualIsSame(x, y, order);
    EqualIsSame(Obj(ls), Obj(rs), order);
    ObjectParts(ls, rs, order);
  }

  lemma OneAndTwo(order: DecimalOrder)
    ensures DiffOf(Arr([Int(1), Int(2)]), Arr([Int(1), Int(3)]), order)
         == Parts(Arr([Int(1), Null]), Arr([Null, Int(2)]), Arr([Null, Int(3)]))
  {
    var xs: seq<Value>, ys: seq<Value> := [Int(1), Int(2)], [Int(1), Int(3)];
    assert xs[1] != ys[1];
    assert DiffItems(xs, ys, order) == Items([Int(1), Null], [Null, Int(2)], [Null, Int(3)]) by {
      hide DiffItems;
      assert xs[1..] == [Int(2)] && ys[1..] == [Int(3)];
      assert xs[1..][1..] == [] && ys[1..][1..] == [];
      DiffItemsStep([], [], order);
      DiffItemsStep(xs[1..], ys[1..], order);
      DiffItemsStep(xs, ys, order);
    }
  }

  // ---- the parts ------------------------------------------------------------------------------------------------

  /** Equal values are the same, of which the left one is kept; unequal ones are each on its own side, unless both are
      arrays or both are objects. */
  lemma WholeParts(l: Value, r: Value, order: DecimalOrder)
    ensures CompareValues(l, r, order) == 0 ==> DiffOf(l, r, order) == Parts(l, Null, Null)
    ensures CompareValues(l, r, order) != 0 && !(l.Arr? && r.Arr?) && !(l.Obj? && r.Obj?) ==>
      DiffOf(l, r, order) == Parts(Null, l, r)
  {
    hide CompareValues, DiffItems, DiffMembers;
  }

  /** Unequal arrays are taken apart item by item, and what the longer one has left over is its own. */
  lemma ArrayParts(ls: seq<Value>, rs: seq<Value>, order: DecimalOrder)
    requires CompareValues(Arr(ls), Arr(rs), order) != 0
    ensures var d, n := DiffOf(Arr(ls), Arr(rs), order), if |ls| < |rs| then |ls| else |rs|;
      && d.same.Arr? && d.left.Arr? && d.right.Arr?
      && |d.same.items| == n && |d.left.items| == |ls| && |d.right.items| == |rs|
      && (forall i :: 0 <= i < n ==>
            Parts(d.same.items[i], d.left.items[i], d.right.items[i]) == DiffOf(ls[i], rs[i], order))
      && (forall i :: n <= i < |ls| ==> d.left.items[i] == ls[i])
      && (forall i :: n <= i < |rs| ==> d.right.items[i] == rs[i])
  {
    hide CompareValues, DiffItems;
    ItemParts(ls, rs, order);
  }

  lemma {:induction false} ItemParts(ls: seq<Value>, rs: seq<Value>, order: DecimalOrder)
    ensures var d, n := DiffItems(ls, rs, order), if |ls| < |rs| then |ls| else |rs|;
      && |d.same| == n && |d.left| == |ls| && |d.right| == |rs|
      && (forall i :: 0 <= i < n ==> Parts(d.same[i], d.left[i], d.right[i]) == DiffOf(ls[i], rs[i], order))
      && (forall i :: n <= i < |ls| ==> d.left[i] == ls[i])
      && (forall i :: n <= i < |rs| ==> d.right[i] == rs[i])
    decreases |ls|
  {
    hide DiffOf, DiffItems;
    DiffItemsStep(ls, rs, order);
    if ls != [] && rs != [] {
      ItemParts(ls[1..], rs[1..], order);
    }
  }
}
