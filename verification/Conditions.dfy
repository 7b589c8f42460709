/**
 Status conditions and `set_condition`: the condition list is a mutable vector that one operation
 updates, by overwriting the first entry of the incoming type or by appending.
 */
module Conditions {
  import opened Wrappers
  import opened Text

  /**
   `lastTransitionTime` is an instant, counted in any fixed unit. In a condition passed to
   `set_condition` it is the caller's clock reading.
   */
  datatype Condition = Condition(
    ty: string,
    status: string,
    reason: string,
    message: string,
    lastTransitionTime: int,
    observedGeneration: Option<int>)

  /** The position of the first entry of type `ty`, or the length of the list when there is none. */
  function Find(cs: seq<Condition>, ty: string): (i: nat)
    ensures i <= |cs|
    ensures forall j | 0 <= j < i :: cs[j].ty != ty
    ensures i < |cs| ==> cs[i].ty == ty
  {
    if cs == [] || cs[0].ty == ty then 0 else 1 + Find(cs[1..], ty)
  }

  /** The entry that replaces `existing`: the transition time survives an unchanged status. */
  function Refresh(existing: Condition, incoming: Condition): Condition {
    if existing.status == incoming.status
    then incoming.(lastTransitionTime := existing.lastTransitionTime)
    else incoming
  }

  /** The list that one call leaves behind. */
  function Updated(cs: seq<Condition>, c: Condition): seq<Condition> {
    var i := Find(cs, c.ty);
    if i < |cs| then cs[i := Refresh(cs[i], c)] else cs + [c]
  }

  /** The list that a whole sequence of calls leaves behind. */
  function Replay(cs: seq<Condition>, calls: seq<Condition>): seq<Condition> {
    if calls == [] then cs
    else Updated(Replay(cs, calls[..|calls| - 1]), calls[|calls| - 1])
  }

  /** What a client reads: the first entry of a type. */
  function Lookup(cs: seq<Condition>, ty: string): Option<Condition> {
    var i := Find(cs, ty);
    if i < |cs| then Some(cs[i]) else None
  }

  ghost predicate DistinctTypes(cs: seq<Condition>) {
    forall i, j | 0 <= i < j < |cs| :: cs[i].ty != cs[j].ty
  }

  // ---------- The history a list must agree with ----------

  /** The types of the calls, in order of first occurrence. */
  function FirstTypes(calls: seq<Condition>): seq<string> {
    if calls == [] then []
    else
      var n := |calls| - 1;
      var types := FirstTypes(calls[..n]);
      if calls[n].ty in types then types else types + [calls[n].ty]
  }

  lemma {:induction false} FirstTypesDistinct(calls: seq<Condition>)
    ensures Distinct(FirstTypes(calls))
  {
    if calls != [] {
      FirstTypesDistinct(calls[..|calls| - 1]);
    }
  }

  lemma {:induction false} FirstTypesCover(calls: seq<Condition>, k: nat)
    requires k < |calls|
    ensures calls[k].ty in FirstTypes(calls)
  {
    var n := |calls| - 1;
    if k < n {
      FirstTypesCover(calls[..n], k);
    }
  }

  lemma FindInPrefix(cs: seq<Condition>, n: nat, ty: string)
    requires n <= |cs|
    ensures if Find(cs[..n], ty) < n then Find(cs, ty) == Find(cs[..n], ty) else Find(cs, ty) >= n
  {
  }

  lemma {:induction false} FirstTypesOccur(calls: seq<Condition>, ty: string)
    requires ty in FirstTypes(calls)
    ensures Find(calls, ty) < |calls|
  {
    var n := |calls| - 1;
    if ty in FirstTypes(calls[..n]) {
      FirstTypesOccur(calls[..n], ty);
      FindInPrefix(calls, n, ty);
    }
  }

  /** Each type that was called is listed, and listed once. */
  lemma FirstTypesMeaning(calls: seq<Condition>)
    ensures Distinct(FirstTypes(calls))
    ensures forall ty :: ty in FirstTypes(calls) <==> Find(calls, ty) < |calls|
  {
    FirstTypesDistinct(calls);
    forall ty ensures ty in FirstTypes(calls) <==> Find(calls, ty) < |calls| {
      if ty in FirstTypes(calls) {
        FirstTypesOccur(calls, ty);
      }
      if Find(calls, ty) < |calls| {
        FirstTypesCover(calls, Find(calls, ty));
      }
    }
  }

  lemma FindUnique(cs: seq<Condition>, ty: string, i: nat)
    requires i <= |cs|
    requires forall j | 0 <= j < i :: cs[j].ty != ty
    requires i < |cs| ==> cs[i].ty == ty
    ensures Find(cs, ty) == i
  {
  }

  /** The order is that of first occurrence. */
  lemma {:induction false} FirstTypesInOrder(calls: seq<Condition>, i: nat, j: nat)
    requires i < j < |FirstTypes(calls)|
    ensures Find(calls, FirstTypes(calls)[i]) < Find(calls, FirstTypes(calls)[j])
  {
    var n := |calls| - 1;
    var types, prior := FirstTypes(calls), FirstTypes(calls[..n]);
    FirstTypesMeaning(calls[..n]);
    assert types[i] == prior[i];
    FindInPrefix(calls, n, types[i]);
    FindInPrefix(calls, n, types[j]);
    if j < |prior| {
      FirstTypesInOrder(calls[..n], i, j);
    }
  }

  /** `last` is the last call for its type. */
  ghost predicate IsLastCall(calls: seq<Condition>, last: int)
    requires 0 <= last < |calls|
  {
    forall k | last < k < |calls| :: calls[k].ty != calls[last].ty
  }

  /** Every call from `start` to `last` for the type of `last` reports the status of `last`. */
  ghost predicate Unbroken(calls: seq<Condition>, start: int, last: int)
    requires 0 <= start <= last < |calls|
  {
    forall k | start <= k <= last && calls[k].ty == calls[last].ty :: calls[k].status == calls[last].status
  }

  /** `start` is the earliest call of the unbroken run of equal statuses that ends in `last`. */
  ghost predicate IsRunStart(calls: seq<Condition>, start: int, last: int)
    requires 0 <= start <= last < |calls|
  {
    && calls[start].ty == calls[last].ty
    && Unbroken(calls, start, last)
    && forall k | 0 <= k < start && calls[k].ty == calls[last].ty :: !Unbroken(calls, k, last)
  }

  ghost predicate Witnesses(calls: seq<Condition>, e: Condition, start: int, last: int) {
    && 0 <= start <= last < |calls|
    && IsLastCall(calls, last)
    && IsRunStart(calls, start, last)
    && e == calls[last].(lastTransitionTime := calls[start].lastTransitionTime)
  }

  /**
   The entry says what the last call for its type said, except for the transition time, which is that
   of the earliest call in the latest unbroken run of equal statuses for the type.
   */
  ghost predicate Reports(calls: seq<Condition>, e: Condition) {
    exists start, last :: Witnesses(calls, e, start, last)
  }

  /** One entry per type, in order of first occurrence, each reporting the history of its type. */
  ghost predicate Summarises(cs: seq<Condition>, calls: seq<Condition>) {
    var types := FirstTypes(calls);
    && |cs| == |types|
    && forall i | 0 <= i < |cs| :: cs[i].ty == types[i] && Reports(calls, cs[i])
  }

  // ---------- One call ----------

  lemma LookupUpdated(cs: seq<Condition>, c: Condition, ty: string)
    ensures Lookup(Updated(cs, c), ty) ==
            if ty != c.ty then Lookup(cs, ty)
            else Some(match Lookup(cs, ty) case None => c case Some(e) => Refresh(e, c))
  {
    var r := Updated(cs, c);
    var i := Find(cs, ty);
    FindUnique(r, ty, if i == |cs| && ty != c.ty then |r| else i);
  }

  // ---------- From an empty list, the history determines the list ----------

  /** A longer history leaves what earlier positions witness untouched. */
  lemma WitnessesInPrefix(calls: seq<Condition>, n: nat, e: Condition, start: int, last: int)
    requires n == |calls| - 1
    requires Witnesses(calls[..n], e, start, last)
    ensures IsRunStart(calls, start, last)
    ensures calls[n].ty != e.ty ==> Witnesses(calls, e, start, last)
  {
    assert forall k | 0 <= k < n :: calls[..n][k] == calls[k];
    forall k | 0 <= k <= last ensures Unbroken(calls, k, last) <==> Unbroken(calls[..n], k, last) {
    }
  }

  /** The entry for a type already seen, after one more call for that type. */
  lemma RefreshedReports(calls: seq<Condition>, n: nat, e: Condition)
    requires n == |calls| - 1
    requires Reports(calls[..n], e) && calls[n].ty == e.ty
    ensures Reports(calls, Refresh(e, calls[n]))
  {
    var start, last :| Witnesses(calls[..n], e, start, last);
    WitnessesInPrefix(calls, n, e, start, last);
    var from := if e.status == calls[n].status then start else n;
    assert forall k | last < k < n :: calls[..n][k].ty != e.ty;
    assert calls[last].status == e.status;
    forall k | 0 <= k < from && calls[k].ty == calls[n].ty ensures !Unbroken(calls, k, n) {
      assert calls[..n][k] == calls[k];
      assert k <= last;
      if k < start {
        assert !Unbroken(calls, k, last);
      }
    }
    assert Unbroken(calls, from, n);
    assert Witnesses(calls, Refresh(e, calls[n]), from, n);
  }

  lemma FirstReports(calls: seq<Condition>, n: nat)
    requires n == |calls| - 1
    requires forall k | 0 <= k < n :: calls[k].ty != calls[n].ty
    ensures Reports(calls, calls[n])
  {
    assert Witnesses(calls, calls[n], n, n);
  }

  /** The entry for a type that the new call leaves alone. */
  lemma UntouchedReports(calls: seq<Condition>, n: nat, e: Condition)
    requires n == |calls| - 1
    requires Reports(calls[..n], e) && calls[n].ty != e.ty
    ensures Reports(calls, e)
  {
    var start, last :| Witnesses(calls[..n], e, start, last);
    WitnessesInPrefix(calls, n, e, start, last);
  }

  lemma UnlistedIsFirst(calls: seq<Condition>, n: nat)
    requires n == |calls| - 1
    requires calls[n].ty !in FirstTypes(calls[..n])
    ensures forall k | 0 <= k < n :: calls[k].ty != calls[n].ty
  {
    FirstTypesMeaning(calls[..n]);
    assert forall k | 0 <= k < n :: calls[k] == calls[..n][k];
  }

  lemma OtherEntriesDiffer(cs: seq<Condition>, calls: seq<Condition>, ty: string, j: nat)
    requires Summarises(cs, calls)
    requires j < |cs| && j != Find(cs, ty)
    ensures cs[j].ty != ty
  {
    FirstTypesMeaning(calls);
    var i, types := Find(cs, ty), FirstTypes(calls);
    assert i < |cs| ==> types[i] != types[j];
  }

  lemma FoundIffListed(cs: seq<Condition>, types: seq<string>, ty: string)
    requires |cs| == |types| && forall i | 0 <= i < |cs| :: cs[i].ty == types[i]
    ensures Find(cs, ty) < |cs| <==> ty in types
  {
  }

  /** One more call keeps the summary, entry by entry. */
  lemma UpdatedReports(cs: seq<Condition>, calls: seq<Condition>, n: nat, j: nat)
    requires n == |calls| - 1
    requires Summarises(cs, calls[..n])
    requires j < |Updated(cs, calls[n])|
    ensures Reports(calls, Updated(cs, calls[n])[j])
  {
    var i := Find(cs, calls[n].ty);
    if j < |cs| && j == i {
      RefreshedReports(calls, n, cs[i]);
    } else if j < |cs| {
      OtherEntriesDiffer(cs, calls[..n], calls[n].ty, j);
      UntouchedReports(calls, n, cs[j]);
    } else {
      FoundIffListed(cs, FirstTypes(calls[..n]), calls[n].ty);
      UnlistedIsFirst(calls, n);
      FirstReports(calls, n);
    }
  }

  lemma TypesKept(cs: seq<Condition>, calls: seq<Condition>, n: nat)
    requires n == |calls| - 1
    requires Summarises(cs, calls[..n])
    ensures var r, types := Updated(cs, calls[n]), FirstTypes(calls);
            |r| == |types| && forall j | 0 <= j < |r| :: r[j].ty == types[j]
  {
  }

  /**
   Trace refinement: whatever calls are made on an empty list, the list afterwards has one entry per
   type in order of first occurrence, and each entry reports the history of its type.
   */
  lemma {:induction false} ReplaySummarises(calls: seq<Condition>)
    ensures Summarises(Replay([], calls), calls)
  {
    if calls != [] {
      var n := |calls| - 1;
      ReplaySummarises(calls[..n]);
      var cs, r := Replay([], calls[..n]), Replay([], calls);
      TypesKept(cs, calls, n);
      forall j | 0 <= j < |r| ensures Reports(calls, r[j]) {
        UpdatedReports(cs, calls, n, j);
      }
    }
  }

  /** The summary leaves no freedom: it names a single list. */
  lemma SummaryUnique(a: seq<Condition>, b: seq<Condition>, calls: seq<Condition>)
    requires Summarises(a, calls) && Summarises(b, calls)
    ensures a == b
  {
  }

  // ---------- The list itself ----------

  /** A vector of conditions, with the history of the calls made on it. */
  class ConditionList {
    var conditions: seq<Condition>
    ghost const initial: seq<Condition>
    ghost var calls: seq<Condition>

    ghost predicate Valid()
      reads this
    {
      conditions == Replay(initial, calls)
    }

    constructor (initial: seq<Condition>)
      ensures Valid() && conditions == this.initial == initial && calls == []
    {
      conditions, this.initial, calls := initial, initial, [];
    }

    method SetCondition(incoming: Condition)
      requires Valid()
      modifies this
      ensures Valid() && calls == old(calls) + [incoming]
      ensures conditions == Updated(old(conditions), incoming)
      ensures Lookup(conditions, incoming.ty) ==
              Some(match Lookup(old(conditions), incoming.ty)
                   case None => incoming
                   case Some(existing) => Refresh(existing, incoming))
      ensures initial == [] ==> Summarises(conditions, calls)
    {
      var new' := incoming;
      var i := 0;
      while i < |conditions| && conditions[i].ty != new'.ty
        invariant 0 <= i <= |conditions|
        invariant forall j | 0 <= j < i :: conditions[j].ty != new'.ty
      {
        i := i + 1;
      }
      assert i == Find(conditions, incoming.ty);
      if i < |conditions| {
        if conditions[i].status == new'.status {
          new' := new'.(lastTransitionTime := conditions[i].lastTransitionTime);
        }
        conditions := conditions[i := new'];
      } else {
        conditions := conditions + [new'];
      }
      calls := calls + [incoming];
      assert calls[..|calls| - 1] == old(calls);
      LookupUpdated(old(conditions), incoming, incoming.ty);
      if initial == [] {
        ReplaySummarises(calls);
      }
    }
  }
}
