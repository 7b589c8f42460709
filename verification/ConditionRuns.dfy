/**
 What whole runs of `set_condition` calls keep: independence of types, transition times, and the
 calls that make no difference to the end result.
 */
module ConditionRuns {
  import opened Wrappers
  import opened Conditions

  // ---------- Composition ----------

  lemma {:induction false} ReplayConcat(cs: seq<Condition>, a: seq<Condition>, b: seq<Condition>)
    ensures Replay(cs, a + b) == Replay(Replay(cs, a), b)
  {
    if b == [] {
      assert a + b == a;
    } else {
      var n := |b| - 1;
      assert (a + b)[..|a + b| - 1] == a + b[..n];
      ReplayConcat(cs, a, b[..n]);
    }
  }

  /** A list without duplicate types is the history that built it. */
  lemma {:induction false} StartIsHistory(cs: seq<Condition>)
    requires DistinctTypes(cs)
    ensures Replay([], cs) == cs
  {
    if cs != [] {
      var n := |cs| - 1;
      StartIsHistory(cs[..n]);
      FindUnique(cs[..n], cs[n].ty, n);
    }
  }

  /** The entries that are the first of their type. All others are shadowed. */
  function Firsts(cs: seq<Condition>): seq<Condition> {
    if cs == [] then []
    else
      var n := |cs| - 1;
      if Find(cs, cs[n].ty) < n then Firsts(cs[..n]) else Firsts(cs[..n]) + [cs[n]]
  }

  lemma FirstsSnoc(cs: seq<Condition>, x: Condition)
    ensures Firsts(cs + [x]) == if Find(cs, x.ty) < |cs| then Firsts(cs) else Firsts(cs) + [x]
  {
    var longer := cs + [x];
    assert longer[..|cs|] == cs;
    FindInPrefix(longer, |cs|, x.ty);
  }

  lemma LookupSnoc(cs: seq<Condition>, x: Condition, ty: string)
    ensures Lookup(cs + [x], ty) ==
            if Lookup(cs, ty).Some? then Lookup(cs, ty) else if x.ty == ty then Some(x) else None
  {
    var i := Find(cs, ty);
    FindUnique(cs + [x], ty, if i < |cs| || x.ty == ty then i else |cs| + 1);
  }

  /** Shadowed entries are invisible to lookups. */
  lemma {:induction false} LookupFirsts(cs: seq<Condition>, ty: string)
    ensures Lookup(Firsts(cs), ty) == Lookup(cs, ty)
  {
    if cs != [] {
      var n := |cs| - 1;
      assert cs == cs[..n] + [cs[n]];
      LookupFirsts(cs[..n], ty);
      LookupFirsts(cs[..n], cs[n].ty);
      FirstsSnoc(cs[..n], cs[n]);
      LookupSnoc(cs[..n], cs[n], ty);
      LookupSnoc(Firsts(cs[..n]), cs[n], ty);
    }
  }

  lemma DistinctSnoc(cs: seq<Condition>, x: Condition)
    ensures DistinctTypes(cs + [x]) <==> DistinctTypes(cs) && Find(cs, x.ty) == |cs|
  {
    var longer := cs + [x];
    assert forall i | 0 <= i < |cs| :: longer[i] == cs[i];
    assert longer[|cs|] == x;
  }

  lemma {:induction false} FirstsDistinct(cs: seq<Condition>)
    ensures DistinctTypes(Firsts(cs))
  {
    if cs != [] {
      var t, x := cs[..|cs| - 1], cs[|cs| - 1];
      assert cs == t + [x];
      FirstsDistinct(t);
      LookupFirsts(t, x.ty);
      FirstsSnoc(t, x);
      DistinctSnoc(Firsts(t), x);
    }
  }

  lemma {:induction false} FirstsOfDistinct(cs: seq<Condition>)
    requires DistinctTypes(cs)
    ensures Firsts(cs) == cs
  {
    if cs != [] {
      var t, x := cs[..|cs| - 1], cs[|cs| - 1];
      assert cs == t + [x];
      DistinctSnoc(t, x);
      FirstsOfDistinct(t);
      FirstsSnoc(t, x);
    }
  }

  lemma Overwrites(cs: seq<Condition>, c: Condition, i: nat)
    requires i < |cs| && cs[i].ty == c.ty
    requires forall k | 0 <= k < i :: cs[k].ty != c.ty
    ensures Updated(cs, c) == cs[i := Refresh(cs[i], c)]
  {
  }

  lemma Appends(cs: seq<Condition>, c: Condition)
    requires forall k | 0 <= k < |cs| :: cs[k].ty != c.ty
    ensures Updated(cs, c) == cs + [c]
  {
  }

  lemma WriteBeforeSnoc<T>(s: seq<T>, x: T, i: nat, y: T)
    requires i < |s|
    ensures (s + [x])[i := y] == s[i := y] + [x]
  {
  }

  lemma OverwriteBeforeSnoc(cs: seq<Condition>, x: Condition, c: Condition)
    requires Find(cs, c.ty) < |cs|
    ensures Updated(cs + [x], c) == Updated(cs, c) + [x]
  {
    var i := Find(cs, c.ty);
    assert forall k | 0 <= k <= i :: (cs + [x])[k] == cs[k];
    Overwrites(cs + [x], c, i);
    WriteBeforeSnoc(cs, x, i, Refresh(cs[i], c));
  }

  lemma OverwriteSnoc(cs: seq<Condition>, x: Condition, c: Condition)
    requires Find(cs, c.ty) == |cs| && x.ty == c.ty
    ensures Updated(cs + [x], c) == cs + [Refresh(x, c)]
  {
    assert forall k | 0 <= k < |cs| :: (cs + [x])[k] == cs[k];
    Overwrites(cs + [x], c, |cs|);
  }

  lemma FoundAlike(cs: seq<Condition>, ty: string)
    ensures Find(Firsts(cs), ty) < |Firsts(cs)| <==> Find(cs, ty) < |cs|
  {
    LookupFirsts(cs, ty);
  }

  lemma UpdatedBeforeSnoc(t: seq<Condition>, x: Condition, c: Condition)
    requires Find(t, c.ty) < |t| && Firsts(Updated(t, c)) == Updated(Firsts(t), c)
    ensures Firsts(Updated(t + [x], c)) == Updated(Firsts(t + [x]), c)
  {
    FoundAlike(t, c.ty);
    FirstsSnoc(t, x);
    OverwriteBeforeSnoc(t, x, c);
    OverwriteBeforeSnoc(Firsts(t), x, c);
    LookupUpdated(t, c, x.ty);
    FirstsSnoc(Updated(t, c), x);
  }

  lemma AppendsToFirsts(cs: seq<Condition>, c: Condition)
    requires Find(cs, c.ty) == |cs|
    ensures Firsts(Updated(cs, c)) == Updated(Firsts(cs), c)
  {
    FoundAlike(cs, c.ty);
    FirstsSnoc(cs, c);
  }

  lemma OverwritesLastFirst(t: seq<Condition>, x: Condition, c: Condition)
    requires Find(t, c.ty) == |t| && x.ty == c.ty
    ensures Firsts(Updated(t + [x], c)) == Updated(Firsts(t + [x]), c)
  {
    FoundAlike(t, c.ty);
    FirstsSnoc(t, x);
    OverwriteSnoc(t, x, c);
    OverwriteSnoc(Firsts(t), x, c);
    FirstsSnoc(t, Refresh(x, c));
  }

  /** An update sees the first entries only. */
  lemma {:induction false} FirstsUpdated(cs: seq<Condition>, c: Condition)
    ensures Firsts(Updated(cs, c)) == Updated(Firsts(cs), c)
  {
    if Find(cs, c.ty) == |cs| {
      AppendsToFirsts(cs, c);
    } else {
      var t, x := cs[..|cs| - 1], cs[|cs| - 1];
      assert cs == t + [x];
      FindInPrefix(cs, |t|, c.ty);
      if Find(t, c.ty) < |t| {
        FirstsUpdated(t, c);
        UpdatedBeforeSnoc(t, x, c);
      } else {
        OverwritesLastFirst(t, x, c);
      }
    }
  }

  /** Dropping the shadowed entries before a run or after it comes to the same. */
  lemma {:induction false} ReplayOfFirsts(cs: seq<Condition>, calls: seq<Condition>)
    ensures Firsts(Replay(cs, calls)) == Replay(Firsts(cs), calls)
  {
    if calls != [] {
      var n := |calls| - 1;
      ReplayOfFirsts(cs, calls[..n]);
      FirstsUpdated(Replay(cs, calls[..n]), calls[n]);
    }
  }

  /**
   Trace refinement from any list: the first entries after the run are those that the first entries
   before it, followed by the calls, lead to. Without duplicate types, these are all entries.
   */
  lemma ReplayFromSummarises(cs: seq<Condition>, calls: seq<Condition>)
    ensures Summarises(Firsts(Replay(cs, calls)), Firsts(cs) + calls)
    ensures DistinctTypes(cs) ==> DistinctTypes(Replay(cs, calls)) && Summarises(Replay(cs, calls), cs + calls)
  {
    ReplayOfFirsts(cs, calls);
    FirstsDistinct(cs);
    StartIsHistory(Firsts(cs));
    ReplayConcat([], Firsts(cs), calls);
    ReplaySummarises(Firsts(cs) + calls);
    if DistinctTypes(cs) {
      FirstsOfDistinct(cs);
      FirstsDistinct(Replay(cs, calls));
    }
  }

  /** In a list with duplicate types, an entry behind another of its type is never written again. */
  lemma {:induction false} ShadowedEntryFrozen(cs: seq<Condition>, calls: seq<Condition>, i: nat, j: nat)
    requires i < j < |cs| && cs[i].ty == cs[j].ty
    ensures var r := Replay(cs, calls);
            |r| >= |cs| && r[i].ty == r[j].ty && r[j] == cs[j]
  {
    if calls != [] {
      ShadowedEntryFrozen(cs, calls[..|calls| - 1], i, j);
    }
  }

  // ---------- Non-interference ----------

  /** The calls for one type, in order. */
  function OnlyType(calls: seq<Condition>, ty: string): seq<Condition> {
    if calls == [] then []
    else
      var rest := OnlyType(calls[..|calls| - 1], ty);
      var c := calls[|calls| - 1];
      if c.ty == ty then rest + [c] else rest
  }

  /** Deleting every call for other types leaves the entry for a type unchanged. */
  lemma {:induction false} OtherTypesDoNotInterfere(cs: seq<Condition>, calls: seq<Condition>, ty: string)
    ensures Lookup(Replay(cs, calls), ty) == Lookup(Replay(cs, OnlyType(calls, ty)), ty)
  {
    if calls != [] {
      var n := |calls| - 1;
      var kept := OnlyType(calls[..n], ty);
      OtherTypesDoNotInterfere(cs, calls[..n], ty);
      LookupUpdated(Replay(cs, calls[..n]), calls[n], ty);
      if calls[n].ty == ty {
        assert OnlyType(calls, ty)[..|kept|] == kept;
        LookupUpdated(Replay(cs, kept), calls[n], ty);
      }
    }
  }

  /** `c` merges `a` and `b`, keeping the order of each. */
  ghost predicate Interleaves(a: seq<Condition>, b: seq<Condition>, c: seq<Condition>)
    decreases |c|
  {
    if c == [] then a == [] && b == []
    else
      var n := |c| - 1;
      || (a != [] && a[|a| - 1] == c[n] && Interleaves(a[..|a| - 1], b, c[..n]))
      || (b != [] && b[|b| - 1] == c[n] && Interleaves(a, b[..|b| - 1], c[..n]))
  }

  ghost predicate DisjointTypes(a: seq<Condition>, b: seq<Condition>) {
    forall i, j | 0 <= i < |a| && 0 <= j < |b| :: a[i].ty != b[j].ty
  }

  lemma {:induction false} OnlyTypeEmpty(calls: seq<Condition>, ty: string)
    requires forall i | 0 <= i < |calls| :: calls[i].ty != ty
    ensures OnlyType(calls, ty) == []
  {
    if calls != [] {
      OnlyTypeEmpty(calls[..|calls| - 1], ty);
    }
  }

  /** An interleaving holds, of each type, the calls of one trace followed by those of the other. */
  lemma {:induction false} OnlyTypeOfInterleaving(a: seq<Condition>, b: seq<Condition>, c: seq<Condition>, ty: string)
    requires Interleaves(a, b, c) && DisjointTypes(a, b)
    ensures OnlyType(c, ty) == OnlyType(a, ty) + OnlyType(b, ty)
    decreases |c|
  {
    if c != [] {
      var n := |c| - 1;
      if a != [] && a[|a| - 1] == c[n] && Interleaves(a[..|a| - 1], b, c[..n]) {
        OnlyTypeOfInterleaving(a[..|a| - 1], b, c[..n], ty);
        if c[n].ty == ty {
          OnlyTypeEmpty(b, ty);
        }
      } else {
        OnlyTypeOfInterleaving(a, b[..|b| - 1], c[..n], ty);
      }
    }
  }

  /** Two controllers that own different types may run in any order. */
  lemma InterleavingsAgree(cs: seq<Condition>, a: seq<Condition>, b: seq<Condition>,
                           c: seq<Condition>, d: seq<Condition>, ty: string)
    requires DisjointTypes(a, b) && Interleaves(a, b, c) && Interleaves(a, b, d)
    ensures Lookup(Replay(cs, c), ty) == Lookup(Replay(cs, d), ty)
  {
    OnlyTypeOfInterleaving(a, b, c, ty);
    OnlyTypeOfInterleaving(a, b, d, ty);
    OtherTypesDoNotInterfere(cs, c, ty);
    OtherTypesDoNotInterfere(cs, d, ty);
  }

  lemma InListIffLookup(cs: seq<Condition>, e: Condition)
    requires DistinctTypes(cs)
    ensures e in cs <==> Lookup(cs, e.ty) == Some(e)
    ensures multiset(cs)[e] <= 1
  {
    if e in cs {
      var i :| 0 <= i < |cs| && cs[i] == e;
      FindUnique(cs, e.ty, i);
      assert cs == cs[..i] + [e] + cs[i + 1..];
      assert e !in cs[..i] && e !in cs[i + 1..];
    }
  }

  /** Lists with distinct types that answer every lookup alike differ at most in the order of entries. */
  lemma LookupsDetermineEntries(a: seq<Condition>, b: seq<Condition>)
    requires DistinctTypes(a) && DistinctTypes(b)
    requires forall ty :: Lookup(a, ty) == Lookup(b, ty)
    ensures multiset(a) == multiset(b)
  {
    forall e ensures multiset(a)[e] == multiset(b)[e] {
      InListIffLookup(a, e);
      InListIffLookup(b, e);
      assert e in a <==> e in multiset(a);
      assert e in b <==> e in multiset(b);
    }
  }

  lemma {:induction false} ReplayGrows(cs: seq<Condition>, calls: seq<Condition>)
    ensures |cs| <= |Replay(cs, calls)|
    ensures forall i | 0 <= i < |cs| :: Replay(cs, calls)[i].ty == cs[i].ty
  {
    if calls != [] {
      ReplayGrows(cs, calls[..|calls| - 1]);
    }
  }

  /** From position `n` on, every type is new to the list. */
  ghost predicate FreshFrom(cs: seq<Condition>, n: nat) {
    forall i, j | 0 <= i < j < |cs| && n <= j :: cs[i].ty != cs[j].ty
  }

  /** What a run appends has types that are new to the list and to each other. */
  lemma {:induction false} AppendedFresh(cs: seq<Condition>, calls: seq<Condition>)
    ensures FreshFrom(Replay(cs, calls), |cs|)
  {
    if calls != [] {
      AppendedFresh(cs, calls[..|calls| - 1]);
    }
  }

  lemma SuffixDistinct(cs: seq<Condition>, n: nat)
    requires n <= |cs| && FreshFrom(cs, n)
    ensures DistinctTypes(cs[n..])
  {
  }

  lemma SuffixLookup(cs: seq<Condition>, n: nat, ty: string)
    requires n <= |cs| && FreshFrom(cs, n)
    ensures Lookup(cs[n..], ty) == if Find(cs, ty) < n then None else Lookup(cs, ty)
  {
    var k, tail := Find(cs, ty), cs[n..];
    assert forall j | 0 <= j < |tail| :: tail[j] == cs[n + j];
    FindUnique(tail, ty, if k < n then |tail| else k - n);
  }

  lemma FindInStart(cs: seq<Condition>, longer: seq<Condition>, ty: string)
    requires |cs| <= |longer| && forall i | 0 <= i < |cs| :: longer[i].ty == cs[i].ty
    ensures Find(longer, ty) < |cs| <==> Find(cs, ty) < |cs|
  {
  }

  /** A lookup falls into the appended part exactly when the starting list lacks the type. */
  lemma AppendedLookup(cs: seq<Condition>, calls: seq<Condition>, ty: string)
    ensures |cs| <= |Replay(cs, calls)|
    ensures Lookup(Replay(cs, calls)[|cs|..], ty) ==
            if Find(cs, ty) < |cs| then None else Lookup(Replay(cs, calls), ty)
  {
    ReplayGrows(cs, calls);
    AppendedFresh(cs, calls);
    FindInStart(cs, Replay(cs, calls), ty);
    SuffixLookup(Replay(cs, calls), |cs|, ty);
  }

  /** Each starting position holds the entry looked up for its type, or, if shadowed, what it held. */
  lemma KeptEntry(cs: seq<Condition>, calls: seq<Condition>, i: nat)
    requires i < |cs|
    ensures |cs| <= |Replay(cs, calls)|
    ensures Find(cs, cs[i].ty) == i ==> Lookup(Replay(cs, calls), cs[i].ty) == Some(Replay(cs, calls)[i])
    ensures Find(cs, cs[i].ty) != i ==> Replay(cs, calls)[i] == cs[i]
  {
    ReplayGrows(cs, calls);
    var f := Find(cs, cs[i].ty);
    if f == i {
      FindUnique(Replay(cs, calls), cs[i].ty, i);
    } else {
      ShadowedEntryFrozen(cs, calls, f, i);
    }
  }

  /**
   Every order of two independent controllers, on any list, leaves the same entries: those of the
   starting list in place, and those appended at most in another order.
   */
  lemma InterleavingsLeaveSameEntries(cs: seq<Condition>, a: seq<Condition>, b: seq<Condition>,
                                      c: seq<Condition>, d: seq<Condition>)
    requires DisjointTypes(a, b) && Interleaves(a, b, c) && Interleaves(a, b, d)
    ensures |cs| <= |Replay(cs, c)| && |cs| <= |Replay(cs, d)|
    ensures Replay(cs, c)[..|cs|] == Replay(cs, d)[..|cs|]
    ensures multiset(Replay(cs, c)[|cs|..]) == multiset(Replay(cs, d)[|cs|..])
  {
    ReplayGrows(cs, c);
    ReplayGrows(cs, d);
    forall i | 0 <= i < |cs| ensures Replay(cs, c)[i] == Replay(cs, d)[i] {
      KeptEntry(cs, c, i);
      KeptEntry(cs, d, i);
      InterleavingsAgree(cs, a, b, c, d, cs[i].ty);
    }
    var n := |cs|;
    forall ty ensures Lookup(Replay(cs, c)[n..], ty) == Lookup(Replay(cs, d)[n..], ty) {
      AppendedLookup(cs, c, ty);
      AppendedLookup(cs, d, ty);
      InterleavingsAgree(cs, a, b, c, d, ty);
    }
    AppendedFresh(cs, c);
    AppendedFresh(cs, d);
    SuffixDistinct(Replay(cs, c), n);
    SuffixDistinct(Replay(cs, d), n);
    LookupsDetermineEntries(Replay(cs, c)[n..], Replay(cs, d)[n..]);
  }

  lemma OverwritesCommute(cs: seq<Condition>, a: Condition, b: Condition, i: nat, j: nat)
    requires i < |cs| && j < |cs| && cs[i].ty == a.ty && cs[j].ty == b.ty && a.ty != b.ty
    requires forall k | 0 <= k < i :: cs[k].ty != a.ty
    requires forall k | 0 <= k < j :: cs[k].ty != b.ty
    ensures Updated(Updated(cs, a), b) == Updated(Updated(cs, b), a)
  {
    var x, y := Refresh(cs[i], a), Refresh(cs[j], b);
    Overwrites(cs, a, i);
    Overwrites(cs, b, j);
    Overwrites(cs[i := x], b, j);
    Overwrites(cs[j := y], a, i);
    assert cs[i := x][j := y] == cs[j := y][i := x];
  }

  lemma OverwriteAppendCommute(cs: seq<Condition>, a: Condition, b: Condition, i: nat)
    requires i < |cs| && cs[i].ty == a.ty != b.ty
    requires forall k | 0 <= k < i :: cs[k].ty != a.ty
    requires forall k | 0 <= k < |cs| :: cs[k].ty != b.ty
    ensures Updated(Updated(cs, a), b) == Updated(Updated(cs, b), a)
  {
    var x := Refresh(cs[i], a);
    Overwrites(cs, a, i);
    Appends(cs, b);
    Appends(cs[i := x], b);
    Overwrites(cs + [b], a, i);
    assert cs[i := x] + [b] == (cs + [b])[i := x];
  }

  lemma AppendsDoNotCommute(cs: seq<Condition>, a: Condition, b: Condition)
    requires a.ty != b.ty
    requires forall k | 0 <= k < |cs| :: cs[k].ty != a.ty && cs[k].ty != b.ty
    ensures Updated(Updated(cs, a), b) != Updated(Updated(cs, b), a)
  {
    Appends(cs, a);
    Appends(cs, b);
    Appends(cs + [a], b);
    Appends(cs + [b], a);
    assert (cs + [a] + [b])[|cs|] == a && (cs + [b] + [a])[|cs|] == b;
  }

  /** Two updates of different types commute exactly when at least one of them overwrites. */
  lemma CommuteIff(cs: seq<Condition>, a: Condition, b: Condition)
    requires a.ty != b.ty
    ensures Updated(Updated(cs, a), b) == Updated(Updated(cs, b), a)
            <==> Find(cs, a.ty) < |cs| || Find(cs, b.ty) < |cs|
  {
    var i, j, n := Find(cs, a.ty), Find(cs, b.ty), |cs|;
    assert forall k | 0 <= k < i :: cs[k].ty != a.ty;
    assert forall k | 0 <= k < j :: cs[k].ty != b.ty;
    if i < n && j < n {
      OverwritesCommute(cs, a, b, i, j);
    } else if i < n {
      OverwriteAppendCommute(cs, a, b, i);
    } else if j < n {
      OverwriteAppendCommute(cs, b, a, j);
    } else {
      AppendsDoNotCommute(cs, a, b);
    }
  }

  // ---------- Transition times ----------

  ghost predicate NoneAfter(cs: seq<Condition>, t: int) {
    forall i | 0 <= i < |cs| :: cs[i].lastTransitionTime <= t
  }

  /** The calls arrive in time order, none before what the list already records. */
  ghost predicate InTimeOrder(cs: seq<Condition>, calls: seq<Condition>) {
    && (forall i, j | 0 <= i < j < |calls| :: calls[i].lastTransitionTime <= calls[j].lastTransitionTime)
    && (forall k | 0 <= k < |calls| :: NoneAfter(cs, calls[k].lastTransitionTime))
  }

  /** No stored time lies after all the times supplied. */
  lemma {:induction false} TimesBounded(cs: seq<Condition>, calls: seq<Condition>, t: int)
    requires NoneAfter(cs, t) && NoneAfter(calls, t)
    ensures NoneAfter(Replay(cs, calls), t)
  {
    if calls != [] {
      TimesBounded(cs, calls[..|calls| - 1], t);
    }
  }

  /**
   Over a run no entry moves, goes away or changes its type, and its status and transition time stand
   until a call for its type reports another status.
   */
  lemma {:induction false} EntriesPersist(cs: seq<Condition>, calls: seq<Condition>, i: nat)
    requires i < |cs|
    ensures var r := Replay(cs, calls);
            && i < |r| && r[i].ty == cs[i].ty
            && ((forall k | 0 <= k < |calls| && calls[k].ty == cs[i].ty :: calls[k].status == cs[i].status) ==>
                 r[i].status == cs[i].status && r[i].lastTransitionTime == cs[i].lastTransitionTime)
  {
    if calls != [] {
      var n := |calls| - 1;
      EntriesPersist(cs, calls[..n], i);
      if forall k | 0 <= k < |calls| && calls[k].ty == cs[i].ty :: calls[k].status == cs[i].status {
        assert forall k | 0 <= k < n :: calls[..n][k] == calls[k];
      }
    }
  }

  /** What is left of an orderly run is orderly for the list reached. */
  lemma StillInTimeOrder(cs: seq<Condition>, calls: seq<Condition>, p: nat)
    requires p <= |calls| && InTimeOrder(cs, calls)
    ensures InTimeOrder(Replay(cs, calls[..p]), calls[p..])
  {
    forall k | p <= k < |calls| ensures NoneAfter(Replay(cs, calls[..p]), calls[k].lastTransitionTime) {
      TimesBounded(cs, calls[..p], calls[k].lastTransitionTime);
    }
  }

  lemma {:induction false} EntryTimesMonotone(cs: seq<Condition>, calls: seq<Condition>, i: nat)
    requires i < |cs| && InTimeOrder(cs, calls)
    ensures i < |Replay(cs, calls)| && cs[i].lastTransitionTime <= Replay(cs, calls)[i].lastTransitionTime
  {
    EntriesPersist(cs, calls, i);
    if calls != [] {
      var n := |calls| - 1;
      EntryTimesMonotone(cs, calls[..n], i);
      TimesBounded(cs, calls[..n], calls[n].lastTransitionTime);
    }
  }

  /** A call for the type of `e` reports another status than `e`. */
  ghost predicate Flips(calls: seq<Condition>, e: Condition) {
    exists k :: 0 <= k < |calls| && calls[k].ty == e.ty && calls[k].status != e.status
  }

  /** `after` keeps the type of `before`, and its time moved forward at most, and only over a flip. */
  ghost predicate Follows(before: Condition, after: Condition, between: seq<Condition>) {
    && before.ty == after.ty
    && before.lastTransitionTime <= after.lastTransitionTime
    && (before.lastTransitionTime != after.lastTransitionTime ==> Flips(between, before))
  }

  lemma EntryFollows(cs: seq<Condition>, calls: seq<Condition>, i: nat)
    requires i < |cs| && InTimeOrder(cs, calls)
    ensures i < |Replay(cs, calls)| && Follows(cs[i], Replay(cs, calls)[i], calls)
  {
    EntryTimesMonotone(cs, calls, i);
    EntriesPersist(cs, calls, i);
  }

  /**
   Between any two points of a run under an orderly clock, an entry keeps its place and type, its
   transition time never goes back, and it moves only if a call in between flips the status.
   */
  lemma TransitionTimesMonotone(cs: seq<Condition>, calls: seq<Condition>, p: nat, q: nat, i: nat)
    requires p <= q <= |calls| && InTimeOrder(cs, calls)
    requires i < |Replay(cs, calls[..p])|
    ensures i < |Replay(cs, calls[..q])|
    ensures Follows(Replay(cs, calls[..p])[i], Replay(cs, calls[..q])[i], calls[p..q])
  {
    assert calls[..q][..p] == calls[..p] && calls[..q][p..] == calls[p..q];
    assert calls[..q] == calls[..p] + calls[p..q];
    ReplayConcat(cs, calls[..p], calls[p..q]);
    StillInTimeOrder(cs, calls[..q], p);
    EntryFollows(Replay(cs, calls[..p]), calls[p..q], i);
  }

  // ---------- Calls that make no difference ----------

  /** The lists agree except for the reason, message and generation of the entry for `ty`. */
  ghost predicate AgreeUpToDetail(a: seq<Condition>, b: seq<Condition>, ty: string) {
    var i := Find(a, ty);
    && i < |a| == |b|
    && b == a[i := b[i]]
    && b[i].ty == ty && b[i].status == a[i].status
    && b[i].lastTransitionTime == a[i].lastTransitionTime
  }

  lemma AgreementKept(a: seq<Condition>, b: seq<Condition>, ty: string, c: Condition)
    requires AgreeUpToDetail(a, b, ty)
    ensures c.ty == ty ==> Updated(a, c) == Updated(b, c)
    ensures c.ty != ty ==> AgreeUpToDetail(Updated(a, c), Updated(b, c), ty)
  {
    var i, k := Find(a, ty), Find(a, c.ty);
    FindUnique(b, c.ty, k);
    FindUnique(Updated(a, c), ty, i);
    if c.ty != ty {
      assert Updated(b, c) == Updated(a, c)[i := b[i]];
    }
  }

  ghost predicate Mentions(calls: seq<Condition>, ty: string) {
    exists k :: 0 <= k < |calls| && calls[k].ty == ty
  }

  lemma MentionsAppend(calls: seq<Condition>, c: Condition, ty: string)
    ensures Mentions(calls + [c], ty) <==> Mentions(calls, ty) || c.ty == ty
  {
    var longer := calls + [c];
    assert longer[|calls|] == c;
    if k :| 0 <= k < |calls| && calls[k].ty == ty {
      assert longer[k] == calls[k];
    }
  }

  /** The next call for the type erases the difference. */
  lemma {:induction false} AgreementErased(a: seq<Condition>, b: seq<Condition>, ty: string, calls: seq<Condition>)
    requires AgreeUpToDetail(a, b, ty)
    ensures if Mentions(calls, ty) then Replay(a, calls) == Replay(b, calls)
            else AgreeUpToDetail(Replay(a, calls), Replay(b, calls), ty)
  {
    if calls != [] {
      var n := |calls| - 1;
      AgreementErased(a, b, ty, calls[..n]);
      assert calls == calls[..n] + [calls[n]];
      MentionsAppend(calls[..n], calls[n], ty);
      if !Mentions(calls[..n], ty) {
        AgreementKept(Replay(a, calls[..n]), Replay(b, calls[..n]), ty, calls[n]);
      }
    }
  }

  /** A call that repeats the stored status and is followed by another for its type can be dropped. */
  lemma RepeatedCallDroppable(cs: seq<Condition>, before: seq<Condition>, c: Condition, after: seq<Condition>)
    requires var e := Lookup(Replay(cs, before), c.ty); e.Some? && e.value.status == c.status
    requires Mentions(after, c.ty)
    ensures Replay(cs, before + [c] + after) == Replay(cs, before + after)
  {
    var s := Replay(cs, before);
    var i := Find(s, c.ty);
    assert (before + [c])[..|before|] == before;
    ReplayConcat(cs, before + [c], after);
    ReplayConcat(cs, before, after);
    assert Replay(cs, before + [c]) == Updated(s, c);
    assert AgreeUpToDetail(s, Updated(s, c), c.ty);
    AgreementErased(s, Updated(s, c), c.ty, after);
  }
}
