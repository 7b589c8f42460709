/**
 Sorted lists without duplicates: the in-place sort and the in-place removal of adjacent duplicates
 that turn any list into the strictly ascending list of its elements.
 */
module CanonicalLists {
  import opened Text

  predicate Sorted(s: seq<string>) {
    forall i, j | 0 <= i < j < |s| :: AtMost(s[i], s[j])
  }

  predicate StrictlyAscending(s: seq<string>) {
    Sorted(s) && Distinct(s)
  }

  /** Earlier elements come before later ones as in a dictionary. */
  ghost predicate InDictionaryOrder(s: seq<string>) {
    forall i, j | 0 <= i < j < |s| :: ComesBefore(s[i], s[j])
  }

  lemma ComesBeforeIrreflexive(a: string)
    ensures !ComesBefore(a, a)
  {
  }

  lemma AscendingIffDictionary(s: seq<string>)
    ensures StrictlyAscending(s) <==> InDictionaryOrder(s)
  {
    forall i, j | 0 <= i < j < |s|
      ensures AtMost(s[i], s[j]) && s[i] != s[j] <==> ComesBefore(s[i], s[j])
    {
      AtMostMeaning(s[i], s[j]);
      ComesBeforeIrreflexive(s[i]);
    }
  }

  function Elements(s: seq<string>): set<string> {
    set x | x in s
  }

  // ---------- The ascending list of a set ----------

  lemma {:induction false} LeastExists(S: set<string>) returns (least: string)
    requires S != {}
    ensures least in S && forall x | x in S :: AtMost(least, x)
  {
    var y :| y in S;
    var rest := S - {y};
    AtMostTotal(y, y);
    if rest == {} {
      least := y;
      assert S == {y};
    } else {
      var m := LeastExists(rest);
      AtMostTotal(m, y);
      least := if AtMost(m, y) then m else y;
      forall x | x in S ensures AtMost(least, x) {
        if x != y && least == y {
          AtMostTransitive(y, m, x);
        }
      }
    }
  }

  ghost function Least(S: set<string>): (least: string)
    requires S != {}
    ensures least in S && forall x | x in S :: AtMost(least, x)
  {
    assert exists m :: m in S && forall x | x in S :: AtMost(m, x) by {
      var m := LeastExists(S);
    }
    var m :| m in S && forall x | x in S :: AtMost(m, x);
    m
  }

  /** The elements of `S` in ascending order. */
  ghost function Ascending(S: set<string>): seq<string> {
    if S == {} then [] else [Least(S)] + Ascending(S - {Least(S)})
  }

  lemma ConsAscending(x: string, rest: seq<string>)
    requires StrictlyAscending(rest) && x !in rest && forall y | y in rest :: AtMost(x, y)
    ensures StrictlyAscending([x] + rest) && Elements([x] + rest) == {x} + Elements(rest)
  {
  }

  lemma {:induction false} AscendingMeaning(S: set<string>)
    ensures StrictlyAscending(Ascending(S)) && Elements(Ascending(S)) == S && |Ascending(S)| == |S|
    ensures InDictionaryOrder(Ascending(S))
  {
    if S != {} {
      var m := Least(S);
      AscendingMeaning(S - {m});
      var rest := Ascending(S - {m});
      assert forall y | y in rest :: y in Elements(rest);
      ConsAscending(m, rest);
    }
    AscendingIffDictionary(Ascending(S));
  }

  lemma HeadIsLeast(s: seq<string>)
    requires s != [] && StrictlyAscending(s)
    ensures s[0] in Elements(s) && forall x | x in Elements(s) :: AtMost(s[0], x)
    ensures Elements(s[1..]) == Elements(s) - {s[0]} && StrictlyAscending(s[1..])
  {
    AtMostTotal(s[0], s[0]);
    assert s == [s[0]] + s[1..];
    forall x | x in Elements(s) ensures AtMost(s[0], x) {
      var i :| 0 <= i < |s| && s[i] == x;
    }
    assert forall i | 0 <= i < |s[1..]| :: s[1..][i] == s[i + 1];
  }

  /** A strictly ascending list is determined by its elements. */
  lemma {:induction false} AscendingUnique(s: seq<string>, t: seq<string>)
    requires StrictlyAscending(s) && StrictlyAscending(t) && Elements(s) == Elements(t)
    ensures s == t
  {
    assert s != [] ==> s[0] in Elements(s);
    assert t != [] ==> t[0] in Elements(t);
    if s != [] && t != [] {
      HeadIsLeast(s);
      HeadIsLeast(t);
      AtMostAntisymmetric(s[0], t[0]);
      AscendingUnique(s[1..], t[1..]);
      assert s == [s[0]] + s[1..] && t == [t[0]] + t[1..];
    }
  }

  // ---------- Removing adjacent duplicates ----------

  /** One element of every run of equal neighbours, in order. */
  function Dedup(s: seq<string>): (r: seq<string>)
    ensures |r| <= |s| && (s != [] ==> r != [] && r[|r| - 1] == s[|s| - 1])
  {
    var n := |s| - 1;
    if n < 1 then s
    else if s[n] == s[n - 1] then Dedup(s[..n])
    else Dedup(s[..n]) + [s[n]]
  }

  /** Equal elements stand next to each other. */
  ghost predicate Grouped(s: seq<string>) {
    forall i, j, k | 0 <= i <= k <= j < |s| && s[i] == s[j] :: s[k] == s[i]
  }

  lemma ElementsAppend(s: seq<string>, x: string)
    ensures Elements(s + [x]) == Elements(s) + {x}
    ensures Distinct(s + [x]) <==> Distinct(s) && x !in s
  {
    var t := s + [x];
    assert forall i | 0 <= i < |s| :: t[i] == s[i];
    assert t[|s|] == x;
  }

  lemma {:induction false} DedupElements(s: seq<string>)
    ensures Elements(Dedup(s)) == Elements(s)
  {
    var n := |s| - 1;
    if n >= 1 {
      DedupElements(s[..n]);
      assert s == s[..n] + [s[n]];
      assert s[n - 1] == s[..n][n - 1];
      ElementsAppend(s[..n], s[n]);
      ElementsAppend(Dedup(s[..n]), s[n]);
    }
  }

  lemma GroupedPrefix(s: seq<string>, n: nat)
    requires n == |s| - 1 && n >= 1
    ensures Grouped(s) <==> Grouped(s[..n]) && (s[n] != s[n - 1] ==> s[n] !in s[..n])
  {
  }

  /** Removing adjacent duplicates removes all duplicates exactly when equal elements are grouped. */
  lemma {:induction false} DedupDistinctIff(s: seq<string>)
    ensures Distinct(Dedup(s)) <==> Grouped(s)
  {
    var n := |s| - 1;
    if n >= 1 {
      DedupDistinctIff(s[..n]);
      DedupElements(s[..n]);
      GroupedPrefix(s, n);
      var d := Dedup(s[..n]);
      assert s[n] in d <==> s[n] in Elements(d);
      assert s[n] in s[..n] <==> s[n] in Elements(s[..n]);
      ElementsAppend(d, s[n]);
    }
  }

  lemma SortedIsGrouped(s: seq<string>)
    requires Sorted(s)
    ensures Grouped(s)
  {
    forall i, j, k | 0 <= i <= k <= j < |s| && s[i] == s[j] ensures s[k] == s[i] {
      if i < k < j {
        AtMostAntisymmetric(s[i], s[k]);
      }
    }
  }

  lemma {:induction false} DedupSorted(s: seq<string>)
    requires Sorted(s)
    ensures Sorted(Dedup(s))
  {
    var n := |s| - 1;
    if n >= 1 {
      DedupSorted(s[..n]);
      var d := Dedup(s[..n]);
      DedupElements(s[..n]);
      forall i | 0 <= i < |d| ensures AtMost(d[i], s[n]) {
        assert d[i] in Elements(d);
        var k :| 0 <= k < n && s[..n][k] == d[i];
        assert AtMost(s[k], s[n]);
      }
    }
  }

  /** After a sort, the remaining list is the ascending list of the elements. */
  lemma DedupOfSorted(s: seq<string>)
    requires Sorted(s)
    ensures Dedup(s) == Ascending(Elements(s))
  {
    SortedIsGrouped(s);
    DedupDistinctIff(s);
    DedupSorted(s);
    DedupElements(s);
    AscendingMeaning(Elements(s));
    AscendingUnique(Dedup(s), Ascending(Elements(s)));
  }

  // ---------- The loops ----------

  /** Sorted up to the element at `j`, which may still have to move down. */
  ghost predicate SortedExcept(s: seq<string>, j: int, end: int)
    requires 0 <= j < end <= |s|
  {
    forall p, q | 0 <= p < q < end && q != j :: AtMost(s[p], s[q])
  }

  lemma InsertedIsSorted(s: seq<string>, j: int, end: int)
    requires 0 <= j < end <= |s| && SortedExcept(s, j, end)
    requires j > 0 ==> AtMost(s[j - 1], s[j])
    ensures Sorted(s[..end])
  {
    forall p, q | 0 <= p < q < end ensures AtMost(s[p], s[q]) {
      if q == j && p < j - 1 {
        AtMostTransitive(s[p], s[j - 1], s[j]);
      }
    }
  }

  /** Moves the element at `i` down to its place in the sorted part below. */
  method InsertAt(a: array<string>, i: nat)
    requires i < a.Length && Sorted(a[..i])
    modifies a
    ensures Sorted(a[..i + 1])
    ensures multiset(a[..]) == multiset(old(a[..]))
  {
    var j := i;
    assert forall p | 0 <= p < i :: a[..i][p] == a[p];
    while j > 0 && !AtMost(a[j - 1], a[j])
      invariant 0 <= j <= i
      invariant SortedExcept(a[..], j, i + 1)
      invariant multiset(a[..]) == multiset(old(a[..]))
    {
      AtMostTotal(a[j - 1], a[j]);
      a[j - 1], a[j] := a[j], a[j - 1];
      j := j - 1;
    }
    InsertedIsSorted(a[..], j, i + 1);
    assert a[..i + 1] == a[..][..i + 1];
  }

  method SortInPlace(a: array<string>)
    modifies a
    ensures Sorted(a[..])
    ensures multiset(a[..]) == multiset(old(a[..]))
  {
    var i := 0;
    while i < a.Length
      invariant 0 <= i <= a.Length
      invariant Sorted(a[..i])
      invariant multiset(a[..]) == multiset(old(a[..]))
    {
      InsertAt(a, i);
      i := i + 1;
    }
    assert a[..i] == a[..];
  }

  lemma DedupStep(s: seq<string>, r: nat)
    requires 1 <= r < |s|
    ensures Dedup(s[..r]) != [] && Dedup(s[..r])[|Dedup(s[..r])| - 1] == s[r - 1]
    ensures Dedup(s[..r + 1]) == if s[r] == s[r - 1] then Dedup(s[..r]) else Dedup(s[..r]) + [s[r]]
  {
    assert s[..r + 1][..r] == s[..r];
  }

  /** Two-pointer removal of adjacent duplicates; the first `len` cells hold the result. */
  method DedupInPlace(a: array<string>) returns (len: nat)
    modifies a
    ensures len <= a.Length
    ensures a[..len] == Dedup(old(a[..]))
  {
    if a.Length == 0 {
      return 0;
    }
    var r := 1;
    len := 1;
    ghost var was := a[..];
    while r < a.Length
      invariant 1 <= len <= r <= a.Length == |was|
      invariant a[..len] == Dedup(was[..r])
      invariant forall k | r <= k < a.Length :: a[k] == was[k]
    {
      DedupStep(was, r);
      assert a[len - 1] == a[..len][len - 1] == was[r - 1];
      if a[r] != a[len - 1] {
        ghost var kept := a[..len];
        a[len] := a[r];
        assert a[..len + 1] == a[..len] + [was[r]];
        assert a[..len] == kept;
        len := len + 1;
      }
      r := r + 1;
    }
    assert was[..r] == was;
  }

  lemma SameElements(s: seq<string>, t: seq<string>)
    requires multiset(s) == multiset(t)
    ensures Elements(s) == Elements(t)
  {
    assert forall x :: x in s <==> x in multiset(s);
    assert forall x :: x in t <==> x in multiset(t);
  }

  /** `sort` and then `dedup` on a list. */
  method SortAndDedup(s: seq<string>) returns (out: seq<string>)
    ensures out == Ascending(Elements(s))
    ensures InDictionaryOrder(out)
  {
    var a := new string[|s|](i requires 0 <= i < |s| => s[i]);
    assert a[..] == s;
    SortInPlace(a);
    SameElements(s, a[..]);
    DedupOfSorted(a[..]);
    var len := DedupInPlace(a);
    out := a[..len];
    AscendingMeaning(Elements(s));
  }
}
