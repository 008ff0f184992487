/** Access by path: `walk_path`, and `at_path`, `path` and `count_path` built on it. */
module Paths {
  import opened Bytes
  import opened Json
  import opened Integers

  /** A `path_element`. An index is a `size_t`, so an array has fewer than 2^64 items. */
  datatype Step = Index(index: nat) | Key(key: bytes)

  type Path = seq<Step>

  /** What `at_path` does: return the value there, or throw kind_error or out_of_range. */
  datatype Access = Found(val: Value) | KindError | OutOfRange

  /** The outcome of `path`: the tree afterwards, whether or not it throws, and what it returns. */
  datatype Walked = Walked(tree: Value, access: Access)

  /** `check_type`: null passes for either kind of container. */
  predicate Admits(v: Value, step: Step) {
    v.Null? || match step case Index(_) => v.Arr? case Key(_) => v.Obj?
  }

  function Child(v: Value, step: Step): Option<Value> {
    match step
    case Index(i) => if v.Arr? && i < |v.items| then Some(v.items[i]) else None
    case Key(k) => if v.Obj? then Find(v.members, k) else None
  }

  /** The tree after an assignment to a child that exists. */
  function WithChild(v: Value, step: Step, c: Value): Value
    requires Child(v, step).Some?
  {
    match step
    case Index(i) => Arr(v.items[i := c])
    case Key(k) => Obj(Put(v.members, k, c))
  }

  /** `array.resize(n)`: drop items, or add nulls. */
  function Resize(items: seq<Value>, n: nat): (r: seq<Value>)
    ensures |r| == n
    ensures forall i :: 0 <= i < n ==> r[i] == if i < |items| then items[i] else Null
  {
    if n <= |items| then items[..n] else items + seq(n - |items|, _ => Null)
  }

  /** What `path` does where a child is missing. The new size `index + 1` is a `size_t` and can wrap to zero. */
  function CreateMissing(v: Value, step: Step): Value {
    match step
    case Index(i) => Arr(Resize(if v.Arr? then v.items else [], (i + 1) % TWO_TO_THE_64))
    case Key(k) => Obj(Insert(if v.Obj? then v.members else [], k, Null))
  }

  function AtPath(v: Value, p: Path): Access
    decreases |p|
  {
    if p == [] then Found(v)
    else if !Admits(v, p[0]) then KindError
    else
      match Child(v, p[0])
      case None => OutOfRange
      case Some(c) => AtPath(c, p[1..])
  }

  function WalkCreating(v: Value, p: Path): Walked
    decreases |p|
  {
    if p == [] then Walked(v, Found(v))
    else if !Admits(v, p[0]) then Walked(v, KindError)
    else
      var w := if Child(v, p[0]).Some? then v else CreateMissing(v, p[0]);
      match Child(w, p[0])
      case None => Walked(w, OutOfRange)
      case Some(c) =>
        var r := WalkCreating(c, p[1..]);
        Walked(WithChild(w, p[0], r.tree), r.access)
  }

  /** The tree after an assignment through the reference that `at_path` or `path` returned. */
  function Replace(v: Value, p: Path, x: Value): Value
    requires AtPath(v, p).Found?
    decreases |p|
  {
    if p == [] then x else WithChild(v, p[0], Replace(Child(v, p[0]).value, p[1..], x))
  }

  lemma ChildOfWith(v: Value, step: Step, c: Value, other: Step)
    requires Child(v, step).Some?
    ensures Child(WithChild(v, step, c), other) == if other == step then Some(c) else Child(v, other)
  {
    if step.Key? && other.Key? {
      FindPut(v.members, step.key, c, other.key);
    }
  }

  lemma WithTwice(v: Value, step: Step, c: Value, d: Value)
    requires Child(v, step).Some?
    ensures Child(WithChild(v, step, c), step).Some?
    ensures WithChild(WithChild(v, step, c), step, d) == WithChild(v, step, d)
  {
    ChildOfWith(v, step, c, step);
    if step.Key? {
      PutPut(v.members, step.key, c, d);
    }
  }

  lemma WithSame(v: Value, step: Step)
    requires WellFormed(v) && Child(v, step).Some?
    ensures WithChild(v, step, Child(v, step).value) == v
  {
    if step.Key? {
      PutFound(v.members, step.key);
    }
  }

  lemma ChildIsWellFormed(v: Value, step: Step)
    requires WellFormed(v) && Child(v, step).Some?
    ensures WellFormed(Child(v, step).value)
  {
    if step.Key? {
      var i := FoundIsMember(v.members, step.key);
    }
  }

  /** An index whose successor is a `size_t`. */
  predicate FitsStep(step: Step) { step.Index? ==> step.index + 1 < TWO_TO_THE_64 }

  /** What creating a missing child makes of a value: null in the place itself and in every gap before it. */
  lemma CreatedChild(v: Value, step: Step, other: Step)
    requires Admits(v, step) && Child(v, step).None? && FitsStep(step)
    ensures Admits(CreateMissing(v, step), step)
    ensures Child(CreateMissing(v, step), other) ==
      if Child(v, other).Some? then Child(v, other)
      else if other == step || (step.Index? && other.Index? && other.index < step.index) then Some(Null)
      else None
  {
    if step.Key? && other.Key? {
      FindPut(if v.Obj? then v.members else [], step.key, Null, other.key);
    }
  }

  lemma NoRoom(v: Value, step: Step)
    requires Admits(v, step) && Child(v, step).None? && !FitsStep(step)
    ensures Child(CreateMissing(v, step), step).None?
  {
  }

  lemma CreatedIsWellFormed(v: Value, step: Step)
    requires WellFormed(v)
    ensures WellFormed(CreateMissing(v, step))
  {
    if step.Key? {
      WithMember(if v.Obj? then v.members else [], step.key, Null);
    }
  }

  lemma WithMember(ms: seq<Member>, key: bytes, val: Value)
    requires WellFormed(Obj(ms)) && WellFormed(val)
    ensures WellFormed(Obj(Put(ms, key, val)))
  {
    hide Put, Sorted;
    PutSorted(ms, key, val);
    var r := Put(ms, key, val);
    forall i | 0 <= i < |r| ensures WellFormed(r[i].val) {
      PutMember(ms, key, val, r[i]);
    }
  }

  lemma WithIsWellFormed(v: Value, step: Step, c: Value)
    requires WellFormed(v) && Child(v, step).Some? && WellFormed(c)
    ensures WellFormed(WithChild(v, step, c))
  {
    if step.Key? {
      WithMember(v.members, step.key, c);
    }
  }

  // ---- all or nothing -------------------------------------------------------------------------------------------

  predicate Fits(p: Path) { forall i :: 0 <= i < |p| ==> FitsStep(p[i]) }

  /** From the first missing child on, no index is the greatest `size_t`. */
  predicate HasRoom(v: Value, p: Path)
    decreases |p|
  {
    p != [] ==>
      match Child(v, p[0])
      case Some(c) => HasRoom(c, p[1..])
      case None => Fits(p)
  }

  /** `path` throws kind_error exactly when `at_path` does, and then it has changed nothing. What exists it returns
      untouched. Otherwise it creates a null, provided the indexes leave room. */
  lemma {:induction false} PathOutcome(v: Value, p: Path)
    requires WellFormed(v)
    ensures WalkCreating(v, p) ==
      match AtPath(v, p)
      case Found(x) => Walked(v, Found(x))
      case KindError => Walked(v, KindError)
      case OutOfRange => Walked(WalkCreating(v, p).tree, if HasRoom(v, p) then Found(Null) else OutOfRange)
    decreases |p|
  {
    hide CreateMissing, Child, WithChild, WellFormed;
    if p != [] && Admits(v, p[0]) {
      if Child(v, p[0]).Some? {
        var c := Child(v, p[0]).value;
        ChildIsWellFormed(v, p[0]);
        PathOutcome(c, p[1..]);
        WithSame(v, p[0]);
      } else if FitsStep(p[0]) {
        CreatedChild(v, p[0], p[0]);
        NullCreates(p[1..]);
        assert Fits(p) <==> Fits(p[1..]) by {
          assert p == [p[0]] + p[1..];
        }
      } else {
        NoRoom(v, p[0]);
      }
    }
  }

  /** Below a null everything can be created. */
  lemma {:induction false} NullCreates(p: Path)
    ensures WalkCreating(Null, p).access == if Fits(p) then Found(Null) else OutOfRange
    decreases |p|
  {
    hide CreateMissing, Child, WithChild;
    if p != [] {
      NoChildren(p[0]);
      if FitsStep(p[0]) {
        CreatedChild(Null, p[0], p[0]);
        NullCreates(p[1..]);
        assert Fits(p) <==> Fits(p[1..]) by {
          assert p == [p[0]] + p[1..];
        }
      } else {
        NoRoom(Null, p[0]);
      }
    }
  }

  lemma NoChildren(step: Step)
    ensures Child(Null, step).None?
  {
  }

  /** Where there is no room `path` is not all or nothing: for the greatest index the new size wraps to zero, and an
      array, or a null, is an empty array by the time out_of_range is thrown. The rest of the path is not looked at. */
  lemma WrapEmptiesTheArray(v: Value, p: Path)
    requires (v.Arr? && |v.items| < TWO_TO_THE_64) || v.Null?
    requires p != [] && p[0] == Index(TWO_TO_THE_64 - 1)
    ensures WalkCreating(v, p) == Walked(Arr([]), OutOfRange)
  {
    assert Resize(if v.Arr? then v.items else [], 0) == [];
  }

  lemma {:induction false} WalkIsWellFormed(v: Value, p: Path)
    requires WellFormed(v)
    ensures WellFormed(WalkCreating(v, p).tree)
    decreases |p|
  {
    hide CreateMissing, Child, WithChild, WellFormed;
    if p != [] && Admits(v, p[0]) {
      var w := if Child(v, p[0]).Some? then v else CreateMissing(v, p[0]);
      CreatedIsWellFormed(v, p[0]);
      if Child(w, p[0]).Some? {
        ChildIsWellFormed(w, p[0]);
        WalkIsWellFormed(Child(w, p[0]).value, p[1..]);
        WithIsWellFormed(w, p[0], WalkCreating(Child(w, p[0]).value, p[1..]).tree);
      }
    }
  }

  /** After `path` returns, `at_path` finds what it returned. */
  lemma {:induction false} WalkFinds(v: Value, p: Path)
    requires WalkCreating(v, p).access.Found?
    ensures AtPath(WalkCreating(v, p).tree, p) == WalkCreating(v, p).access
    decreases |p|
  {
    hide CreateMissing, Child, WithChild;
    if p != [] {
      var w := if Child(v, p[0]).Some? then v else CreateMissing(v, p[0]);
      var c := Child(w, p[0]).value;
      WalkFinds(c, p[1..]);
      ChildOfWith(w, p[0], WalkCreating(c, p[1..]).tree, p[0]);
      ChildIsAccepted(w, p[0]);
      ChildIsAccepted(WithChild(w, p[0], WalkCreating(c, p[1..]).tree), p[0]);
    }
  }

  lemma ChildIsAccepted(v: Value, step: Step)
    requires Child(v, step).Some?
    ensures Admits(v, step)
  {
  }

  predicate IsPrefix(q: Path, p: Path) { |q| <= |p| && p[..|q|] == q }

  /** A path that leads from `p`'s parents to an index below `p`'s: one of the gaps that `path(p)` fills. */
  predicate IsGap(q: Path, p: Path) {
    && 0 < |q| <= |p| && q[..|q| - 1] == p[..|q| - 1]
    && q[|q| - 1].Index? && p[|q| - 1].Index? && q[|q| - 1].index < p[|q| - 1].index
  }

  lemma PrefixStep(q: Path, p: Path)
    requires q != [] && p != [] && q[0] == p[0]
    ensures IsPrefix(q, p) <==> IsPrefix(q[1..], p[1..])
    ensures IsGap(q[1..], p[1..]) ==> IsGap(q, p)
  {
    if IsPrefix(q, p) {
      assert p[1..][..|q| - 1] == p[..|q|][1..];
    }
    if IsPrefix(q[1..], p[1..]) {
      assert p[..|q|] == [p[0]] + p[1..][..|q| - 1];
      assert q == [q[0]] + q[1..];
    }
    if IsGap(q[1..], p[1..]) {
      assert p[..|q| - 1] == [p[0]] + p[1..][..|q| - 2];
      assert q[..|q| - 1] == [q[0]] + q[1..][..|q| - 2];
    }
  }

  /** A path that is not on the way to `p` leads where it led before, and where it led nowhere it now leads
      nowhere or to a null in a gap. */
  lemma {:induction false} PathKeepsOthers(v: Value, p: Path, q: Path)
    requires WalkCreating(v, p).access.Found? && !IsPrefix(q, p)
    ensures var t := WalkCreating(v, p).tree;
      if AtPath(v, q).Found? then AtPath(t, q) == AtPath(v, q)
      else AtPath(t, q).Found? ==> AtPath(t, q) == Found(Null) && IsGap(q, p)
    decreases |p|
  {
    hide CreateMissing, Child, WithChild;
    if p != [] {
      var w := if Child(v, p[0]).Some? then v else CreateMissing(v, p[0]);
      var c := Child(w, p[0]).value;
      var t := WalkCreating(v, p).tree;
      ChildOfWith(w, p[0], WalkCreating(c, p[1..]).tree, q[0]);
      AtPathStep(v, q);
      AtPathStep(t, q);
      if Child(v, p[0]).None? {
        if FitsStep(p[0]) {
          CreatedChild(v, p[0], q[0]);
          CreatedChild(v, p[0], p[0]);
        } else {
          NoRoom(v, p[0]);
        }
      }
      if q[0] == p[0] {
        PrefixStep(q, p);
        PathKeepsOthers(c, p[1..], q[1..]);
        NothingBelowNull(q[1..]);
      } else if Child(v, q[0]).None? {
        NothingBelowNull(q[1..]);
      }
    }
  }

  lemma AtPathStep(v: Value, q: Path)
    requires q != []
    ensures AtPath(v, q).Found? <==> Child(v, q[0]).Some? && AtPath(Child(v, q[0]).value, q[1..]).Found?
    ensures AtPath(v, q).Found? ==> AtPath(v, q) == AtPath(Child(v, q[0]).value, q[1..])
  {
    if Child(v, q[0]).Some? {
      ChildIsAccepted(v, q[0]);
    }
  }

  lemma NothingBelowNull(q: Path)
    ensures AtPath(Null, q).Found? <==> q == []
  {
    if q != [] {
      NoChildren(q[0]);
    }
  }

  // ---- assignment through the reference -------------------------------------------------------------------------

  /** `v.path(p) = x`: the tree afterwards and whether `path` threw. */
  function Write(v: Value, p: Path, x: Value): Walked {
    var r := WalkCreating(v, p);
    if r.access.Found? then
      WalkFinds(v, p);
      Walked(Replace(r.tree, p, x), Found(x))
    else r
  }

  /** A write goes down one step at a time. */
  lemma WriteStep(v: Value, p: Path, x: Value)
    requires p != [] && Admits(v, p[0])
    ensures var w := if Child(v, p[0]).Some? then v else CreateMissing(v, p[0]);
      Write(v, p, x) ==
        match Child(w, p[0])
        case None => Walked(w, OutOfRange)
        case Some(c) => Walked(WithChild(w, p[0], Write(c, p[1..], x).tree), Write(c, p[1..], x).access)
  {
    hide CreateMissing, Child, WithChild;
    var w := if Child(v, p[0]).Some? then v else CreateMissing(v, p[0]);
    if Child(w, p[0]).Some? {
      var c := Child(w, p[0]).value;
      var r := WalkCreating(c, p[1..]);
      ChildOfWith(w, p[0], r.tree, p[0]);
      if r.access.Found? {
        WalkFinds(c, p[1..]);
        WithTwice(w, p[0], r.tree, Replace(r.tree, p[1..], x));
      }
    }
  }

  /** What is written is read back. */
  lemma {:induction false} PutGet(v: Value, p: Path, x: Value)
    requires Write(v, p, x).access.Found?
    ensures AtPath(Write(v, p, x).tree, p) == Found(x)
    decreases |p|
  {
    hide CreateMissing, Child, WithChild, Write;
    if p == [] {
      WriteHere(v, x);
    } else {
      if !Admits(v, p[0]) {
        WriteRefused(v, p, x);
      }
      WriteStep(v, p, x);
      var w := if Child(v, p[0]).Some? then v else CreateMissing(v, p[0]);
      var c := Child(w, p[0]).value;
      PutGet(c, p[1..], x);
      ChildOfWith(w, p[0], Write(c, p[1..], x).tree, p[0]);
      AtPathStep(Write(v, p, x).tree, p);
    }
  }

  lemma WriteHere(v: Value, x: Value)
    ensures Write(v, [], x) == Walked(x, Found(x))
  {
  }

  lemma WriteRefused(v: Value, p: Path, x: Value)
    requires p != [] && !Admits(v, p[0])
    ensures Write(v, p, x) == Walked(v, KindError)
  {
  }

  /** Writing what is there already changes nothing. */
  lemma {:induction false} GetPut(v: Value, p: Path)
    requires WellFormed(v) && AtPath(v, p).Found?
    ensures Write(v, p, AtPath(v, p).val) == Walked(v, AtPath(v, p))
    decreases |p|
  {
    hide CreateMissing, Child, WithChild, Write, WellFormed;
    if p == [] {
      WriteHere(v, v);
    } else {
      WriteStep(v, p, AtPath(v, p).val);
      ChildIsWellFormed(v, p[0]);
      GetPut(Child(v, p[0]).value, p[1..]);
      WithSame(v, p[0]);
    }
  }

  /** Of two writes to a path only the second shows. */
  lemma {:induction false} PutPutAt(v: Value, p: Path, x: Value, y: Value)
    requires Write(v, p, x).access.Found?
    ensures Write(Write(v, p, x).tree, p, y) == Write(v, p, y)
    decreases |p|
  {
    hide CreateMissing, Child, WithChild, Write;
    if p == [] {
      WriteHere(v, x);
      WriteHere(x, y);
      WriteHere(v, y);
    } else {
      if !Admits(v, p[0]) {
        WriteRefused(v, p, x);
      }
      WriteStep(v, p, x);
      WriteStep(v, p, y);
      var w := if Child(v, p[0]).Some? then v else CreateMissing(v, p[0]);
      var c := Child(w, p[0]).value;
      PutPutAt(c, p[1..], x, y);
      var t := Write(v, p, x).tree;
      ChildOfWith(w, p[0], Write(c, p[1..], x).tree, p[0]);
      ChildIsAccepted(t, p[0]);
      WriteStep(t, p, y);
      WithTwice(w, p[0], Write(c, p[1..], x).tree, Write(c, p[1..], y).tree);
    }
  }

  /** A write keeps every path that is neither above nor below it. */
  lemma {:induction false} WriteKeepsOthers(v: Value, p: Path, x: Value, q: Path)
    requires Write(v, p, x).access.Found? && AtPath(v, q).Found? && !IsPrefix(q, p) && !IsPrefix(p, q)
    ensures AtPath(Write(v, p, x).tree, q) == AtPath(v, q)
    decreases |p|
  {
    hide CreateMissing, Child, WithChild, Write;
    assert p != [] && q != [];
    if !Admits(v, p[0]) {
      WriteRefused(v, p, x);
    }
    WriteStep(v, p, x);
    var w := if Child(v, p[0]).Some? then v else CreateMissing(v, p[0]);
    var c := Child(w, p[0]).value;
    var t := Write(v, p, x).tree;
    ChildOfWith(w, p[0], Write(c, p[1..], x).tree, q[0]);
    AtPathStep(v, q);
    AtPathStep(t, q);
    if Child(v, p[0]).None? {
      if FitsStep(p[0]) {
        CreatedChild(v, p[0], q[0]);
      } else {
        NoRoom(v, p[0]);
      }
    }
    if q[0] == p[0] {
      PrefixStep(q, p);
      PrefixStep(p, q);
      WriteKeepsOthers(c, p[1..], x, q[1..]);
    }
  }

  // ---- the methods ----------------------------------------------------------------------------------------------

  /** `walk_path` with the callback of `path`, which creates, or of `at_path`, which throws. */
  method WalkPath(current: Value, p: Path, creating: bool) returns (after: Value, access: Access)
    ensures creating ==> Walked(after, access) == WalkCreating(current, p)
    ensures !creating ==> after == current && access == AtPath(current, p)
    decreases |p|
  {
    after := current;
    if p == [] {
      return after, Found(current);
    }
    var elem := p[0];
    if !Admits(current, elem) {
      return after, KindError;
    }
    if Child(after, elem).None? {
      if !creating {
        return after, OutOfRange;
      }
      after := CreateChild(after, elem);
      if Child(after, elem).None? {
        return after, OutOfRange;
      }
    }
    var child, result := WalkPath(Child(after, elem).value, p[1..], creating);
    if creating {
      after := WithChild(after, elem, child);
    }
    return after, result;
  }

  /** The callback of `path`. */
  method CreateChild(current: Value, elem: Step) returns (after: Value)
    requires Admits(current, elem)
    ensures after == CreateMissing(current, elem)
  {
    after := current;
    match elem {
      case Index(i) =>
        if after.Null? {
          after := Arr([]);
        }
        after := Arr(Resize(after.items, (i + 1) % TWO_TO_THE_64));
      case Key(k) =>
        if after.Null? {
          after := Obj([]);
        }
        after := Obj(Insert(after.members, k, Null));
    }
  }

  /** A variable of type `value`, accessed by path. */
  class Document {
    var root: Value

    constructor (v: Value)
      ensures root == v
    {
      root := v;
    }

    /** `at_path(p)`. */
    method ReadAt(p: Path) returns (access: Access)
      ensures access == AtPath(root, p)
    {
      var after;
      after, access := WalkPath(root, p, false);
    }

    method CountPath(p: Path) returns (n: nat)
      ensures n == if AtPath(root, p).Found? then 1 else 0
    {
      var access := ReadAt(p);
      return match access case Found(_) => 1 case KindError => 0 case OutOfRange => 0;
    }

    /** `path(p)`. */
    method CreateAt(p: Path) returns (access: Access)
      requires WellFormed(root)
      modifies this
      ensures WellFormed(root)
      ensures Walked(root, access) == WalkCreating(old(root), p)
      ensures access.KindError? <==> AtPath(old(root), p).KindError?
      ensures access.KindError? ==> root == old(root)
      ensures access.Found? ==> AtPath(root, p) == access
    {
      WalkIsWellFormed(root, p);
      PathOutcome(root, p);
      root, access := WalkPath(root, p, true);
      if access.Found? {
        WalkFinds(old(root), p);
      }
    }

    /** `path(p) = x`. */
    method Assign(p: Path, x: Value) returns (access: Access)
      requires WellFormed(root) && WellFormed(x)
      modifies this
      ensures WellFormed(root)
      ensures Walked(root, access) == Write(old(root), p, x)
    {
      access := CreateAt(p);
      if access.Found? {
        ReplaceIsWellFormed(root, p, x);
        root := Replace(root, p, x);
        access := Found(x);
      }
    }
  }

  lemma {:induction false} ReplaceIsWellFormed(v: Value, p: Path, x: Value)
    requires WellFormed(v) && WellFormed(x) && AtPath(v, p).Found?
    ensures WellFormed(Replace(v, p, x))
    decreases |p|
  {
    hide Child, WithChild, WellFormed;
    if p != [] {
      ChildIsWellFormed(v, p[0]);
      ReplaceIsWellFormed(Child(v, p[0]).value, p[1..], x);
      WithIsWellFormed(v, p[0], Replace(Child(v, p[0]).value, p[1..], x));
    }
  }

  // ---- one step -------------------------------------------------------------------------------------------------

  /** What `at_path` finds in one step. Null passes for an array or an object that has nothing in it. */
  lemma OneStep(v: Value, step: Step)
    ensures AtPath(v, []) == Found(v)
    ensures v.Arr? && step.Index? ==>
      AtPath(v, [step]) == if step.index < |v.items| then Found(v.items[step.index]) else OutOfRange
    ensures v.Obj? && step.Key? ==>
      AtPath(v, [step]) == match Find(v.members, step.key) case Some(x) => Found(x) case None => OutOfRange
    ensures v.Null? ==> AtPath(v, [step]) == OutOfRange
    ensures v.Bool? || v.Int? || v.Decimal? || v.Str? || (v.Arr? && step.Key?) || (v.Obj? && step.Index?) ==>
      AtPath(v, [step]) == KindError
  {
    assert [step][1..] == [];
  }

  /** And in several. */
  lemma {:induction false} StepByStep(v: Value, p: Path, q: Path)
    ensures AtPath(v, p + q) == match AtPath(v, p) case Found(x) => AtPath(x, q) case _ => AtPath(v, p)
    decreases |p|
  {
    hide Child, Admits;
    if p == [] {
      assert p + q == q;
    } else {
      assert (p + q)[1..] == p[1..] + q;
      if Admits(v, p[0]) && Child(v, p[0]).Some? {
        StepByStep(Child(v, p[0]).value, p[1..], q);
      }
    }
  }
}
