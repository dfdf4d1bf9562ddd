/** Message filters: `filter/MessageIdFilter.java`, `filter/AndFilter.java`
    and `filter/OrFilter.java`. A filter reference that may be null is an
    `Option<Filter>`. */
module Filters {
  import opened Wrappers
  import opened JavaTypes
  import opened MessageBuilders

  datatype Filter =
    | IdFilter(id: int16)
    | AndFilter(fs: seq<Filter>)
    | OrFilter(fs: seq<Filter>)

  /** What each kind of filter accepts: one message id; every member; some
      member. */
  predicate Accept(f: Filter, m: Message)
    decreases f
  {
    match f
    case IdFilter(id) => id == m.msgId
    case AndFilter(fs) => forall i :: 0 <= i < |fs| ==> Accept(fs[i], m)
    case OrFilter(fs) => exists i :: 0 <= i < |fs| && Accept(fs[i], m)
  }

  /** The id filter looks at the message id and nothing else: two messages
      with the same id, whatever their flags, body, sn, pid or vid, get the
      same answer, and that answer is yes exactly for the filter's id. */
  lemma IdFilterOnlyId(id: int16, m1: Message, m2: Message)
    requires m1.msgId == m2.msgId
    ensures Accept(IdFilter(id), m1) == Accept(IdFilter(id), m2)
    ensures Accept(IdFilter(id), m1) <==> m1.msgId == id
  {
  }

  /** The empty conjunction accepts everything; the empty disjunction
      rejects everything. */
  lemma EmptyCombinations(m: Message)
    ensures Accept(AndFilter([]), m)
    ensures !Accept(OrFilter([]), m)
  {
  }

  /** The AND filter's loop: members are asked in order and asking stops at
      the first one that rejects. `consulted` counts the members asked. */
  method AndAccept(fs: seq<Filter>, m: Message) returns (r: bool, consulted: nat)
    ensures r == Accept(AndFilter(fs), m)
    ensures r ==> consulted == |fs|
    ensures !r ==> 1 <= consulted <= |fs| && !Accept(fs[consulted - 1], m)
    ensures forall i :: 0 <= i < consulted - 1 ==> Accept(fs[i], m)
  {
    consulted := 0;
    while consulted < |fs|
      invariant consulted <= |fs|
      invariant forall i :: 0 <= i < consulted ==> Accept(fs[i], m)
    {
      consulted := consulted + 1;
      if !Accept(fs[consulted - 1], m) {
        return false, consulted;
      }
    }
    r := true;
  }

  /** The OR filter's loop: members are asked in order and asking stops at
      the first one that accepts. */
  method OrAccept(fs: seq<Filter>, m: Message) returns (r: bool, consulted: nat)
    ensures r == Accept(OrFilter(fs), m)
    ensures !r ==> consulted == |fs|
    ensures r ==> 1 <= consulted <= |fs| && Accept(fs[consulted - 1], m)
    ensures forall i :: 0 <= i < consulted - 1 ==> !Accept(fs[i], m)
  {
    consulted := 0;
    while consulted < |fs|
      invariant consulted <= |fs|
      invariant forall i :: 0 <= i < consulted ==> !Accept(fs[i], m)
    {
      consulted := consulted + 1;
      if Accept(fs[consulted - 1], m) {
        return true, consulted;
      }
    }
    r := false;
  }

  /** True when every reference in the array is non-null. */
  predicate AllPresent(refs: seq<Option<Filter>>)
  {
    forall i :: 0 <= i < |refs| ==> refs[i].Some?
  }

  function Members(refs: seq<Option<Filter>>): (r: seq<Filter>)
    requires AllPresent(refs)
    ensures |r| == |refs| && forall i :: 0 <= i < |refs| ==> refs[i] == Some(r[i])
  {
    seq(|refs|, i requires 0 <= i < |refs| => refs[i].value)
  }

  /** The varargs constructors: a null array or a null member is a
      NullPointerException; otherwise the members, in order. */
  function NewAndFilter(filters: Option<seq<Option<Filter>>>): (r: Result<Filter>)
    ensures r.Success? <==> filters.Some? && AllPresent(filters.value)
    ensures r.Failure? ==> r.error == NullPointer
    ensures r.Success? ==> r.value.AndFilter? && Members(filters.value) == r.value.fs
  {
    if filters.None? || !AllPresent(filters.value) then Failure(NullPointer)
    else Success(AndFilter(Members(filters.value)))
  }

  function NewOrFilter(filters: Option<seq<Option<Filter>>>): (r: Result<Filter>)
    ensures r.Success? <==> filters.Some? && AllPresent(filters.value)
    ensures r.Failure? ==> r.error == NullPointer
    ensures r.Success? ==> r.value.OrFilter? && Members(filters.value) == r.value.fs
  {
    if filters.None? || !AllPresent(filters.value) then Failure(NullPointer)
    else Success(OrFilter(Members(filters.value)))
  }

  /** `addFilter` of either combination: null throws, anything else is
      appended. */
  function AddFilter(f: Filter, g: Option<Filter>): (r: Result<Filter>)
    requires f.AndFilter? || f.OrFilter?
    ensures r.Failure? <==> g.None?
    ensures r.Success? ==> r.value.AndFilter? == f.AndFilter? && !r.value.IdFilter? && r.value.fs == f.fs + [g.value]
  {
    match g
    case None => Failure(NullPointer)
    case Some(h) => Success(if f.AndFilter? then AndFilter(f.fs + [h]) else OrFilter(f.fs + [h]))
  }

  /** Appending a member narrows a conjunction by that member and widens a
      disjunction by it. */
  lemma AddFilterAccept(f: Filter, h: Filter, m: Message)
    requires f.AndFilter? || f.OrFilter?
    ensures f.AndFilter? ==> (Accept(AddFilter(f, Some(h)).value, m) <==> Accept(f, m) && Accept(h, m))
    ensures f.OrFilter? ==> (Accept(AddFilter(f, Some(h)).value, m) <==> Accept(f, m) || Accept(h, m))
  {
    var fs := f.fs + [h];
    assert fs[|f.fs|] == h;
    assert forall i :: 0 <= i < |f.fs| ==> fs[i] == f.fs[i];
    if f.OrFilter? && Accept(AddFilter(f, Some(h)).value, m) && !Accept(h, m) {
      var i :| 0 <= i < |fs| && Accept(fs[i], m);
      assert i < |f.fs|;
    }
  }
}
