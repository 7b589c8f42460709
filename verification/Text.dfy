/**
 String operations of the Rust standard library that the specs rely on: ordering, trimming,
 cutting at a separator, splitting into segments and decimal printing, each with the lemmas
 that determine it. A string is a sequence of Unicode scalar values.
 */
module Text {
  import opened Wrappers

  // ---------- Ordering ----------

  /** Lexicographic order by code point. It agrees with Rust's order on UTF-8 bytes. */
  predicate AtMost(a: string, b: string) {
    a == [] || (b != [] && (a[0] < b[0] || (a[0] == b[0] && AtMost(a[1..], b[1..]))))
  }

  lemma {:induction false} AtMostTotal(a: string, b: string)
    ensures AtMost(a, b) || AtMost(b, a)
  {
    if a != [] && b != [] && a[0] == b[0] {
      AtMostTotal(a[1..], b[1..]);
    }
  }

  lemma {:induction false} AtMostAntisymmetric(a: string, b: string)
    requires AtMost(a, b) && AtMost(b, a)
    ensures a == b
  {
    if a != [] && b != [] {
      AtMostAntisymmetric(a[1..], b[1..]);
      assert a == [a[0]] + a[1..] && b == [b[0]] + b[1..];
    }
  }

  lemma {:induction false} AtMostTransitive(a: string, b: string, c: string)
    requires AtMost(a, b) && AtMost(b, c)
    ensures AtMost(a, c)
  {
    if a != [] && a[0] == b[0] == c[0] {
      AtMostTransitive(a[1..], b[1..], c[1..]);
    }
  }

  /** `k` is the first position at which the two strings differ. */
  ghost predicate DifferFirstAt(a: string, b: string, k: int) {
    0 <= k < |a| && k < |b| && a[..k] == b[..k] && a[k] != b[k]
  }

  /** Dictionary order: a proper prefix, or the smaller code point at the first difference. */
  ghost predicate ComesBefore(a: string, b: string) {
    || (a <= b && a != b)
    || exists k :: DifferFirstAt(a, b, k) && a[k] < b[k]
  }

  lemma ComesBeforeCons(c: char, a: string, b: string)
    ensures ComesBefore([c] + a, [c] + b) <==> ComesBefore(a, b)
  {
    var x, y := [c] + a, [c] + b;
    assert x[1..] == a && y[1..] == b;
    assert x <= y && x != y <==> a <= b && a != b;
    if k :| DifferFirstAt(a, b, k) && a[k] < b[k] {
      assert x[..k + 1] == [c] + a[..k] && y[..k + 1] == [c] + b[..k];
      assert DifferFirstAt(x, y, k + 1) && x[k + 1] < y[k + 1];
    }
    if k :| DifferFirstAt(x, y, k) && x[k] < y[k] {
      assert k > 0;
      assert x[..k][1..] == a[..k - 1] && y[..k][1..] == b[..k - 1];
      assert DifferFirstAt(a, b, k - 1) && a[k - 1] < b[k - 1];
    }
  }

  /** The order is that of a dictionary. */
  lemma {:induction false} AtMostMeaning(a: string, b: string)
    ensures AtMost(a, b) <==> a == b || ComesBefore(a, b)
  {
    if a != [] && b != [] {
      assert a == [a[0]] + a[1..] && b == [b[0]] + b[1..];
      if a[0] == b[0] {
        AtMostMeaning(a[1..], b[1..]);
        ComesBeforeCons(a[0], a[1..], b[1..]);
      } else {
        assert DifferFirstAt(a, b, 0);
        assert forall k | DifferFirstAt(a, b, k) :: k > 0 ==> a[..k][0] == b[..k][0];
      }
    }
  }

  predicate Distinct(s: seq<string>) {
    forall i, j | 0 <= i < j < |s| :: s[i] != s[j]
  }

  // ---------- Trimming ----------

  predicate IsSlash(c: char) {
    c == '/'
  }

  /** The Unicode White_Space property. */
  predicate IsWhitespace(c: char) {
    var n := c as int;
    || 0x9 <= n <= 0xD || n == 0x20 || n == 0x85 || n == 0xA0 || n == 0x1680
    || 0x2000 <= n <= 0x200A || n == 0x2028 || n == 0x2029 || n == 0x202F || n == 0x205F || n == 0x3000
  }

  /** The characters of that property, written out. */
  lemma WhitespaceIff(c: char)
    ensures IsWhitespace(c) <==>
            || c in "\t\n\U{B}\U{C}\r \U{85}\U{A0}\U{1680}"
            || c in "\U{2000}\U{2001}\U{2002}\U{2003}\U{2004}\U{2005}\U{2006}\U{2007}\U{2008}\U{2009}\U{200A}"
            || c in "\U{2028}\U{2029}\U{202F}\U{205F}\U{3000}"
  {
  }

  /** Drops the longest prefix whose characters all satisfy `drop`. */
  function TrimStart(s: string, drop: char -> bool): string {
    if s != [] && drop(s[0]) then TrimStart(s[1..], drop) else s
  }

  /** Drops the longest suffix whose characters all satisfy `drop`. */
  function TrimEnd(s: string, drop: char -> bool): string {
    if s != [] && drop(s[|s| - 1]) then TrimEnd(s[..|s| - 1], drop) else s
  }

  function Trim(s: string, drop: char -> bool): string {
    TrimEnd(TrimStart(s, drop), drop)
  }

  ghost predicate All(s: string, p: char -> bool) {
    forall i | 0 <= i < |s| :: p(s[i])
  }

  /** A trim at the start drops only what it may, and all that it can. */
  lemma {:induction false} TrimStartMeaning(s: string, drop: char -> bool) returns (dropped: string)
    ensures s == dropped + TrimStart(s, drop) && All(dropped, drop)
    ensures TrimStart(s, drop) == [] || !drop(TrimStart(s, drop)[0])
  {
    if s != [] && drop(s[0]) {
      var d := TrimStartMeaning(s[1..], drop);
      dropped := [s[0]] + d;
    } else {
      dropped := [];
    }
  }

  lemma {:induction false} TrimEndMeaning(s: string, drop: char -> bool) returns (dropped: string)
    ensures s == TrimEnd(s, drop) + dropped && All(dropped, drop)
    ensures var t := TrimEnd(s, drop); t == [] || !drop(t[|t| - 1])
  {
    var n := |s| - 1;
    if s != [] && drop(s[n]) {
      var d := TrimEndMeaning(s[..n], drop);
      dropped := d + [s[n]];
    } else {
      dropped := [];
    }
  }

  lemma AllConcat(s: string, t: string, p: char -> bool)
    ensures All(s + t, p) <==> All(s, p) && All(t, p)
  {
    assert forall i | 0 <= i < |s| :: (s + t)[i] == s[i];
    assert forall i | 0 <= i < |t| :: (s + t)[|s| + i] == t[i];
  }

  /** The two halves of a trim leave nothing exactly when there was nothing to keep. */
  lemma TrimEmptyIff(s: string, drop: char -> bool)
    ensures Trim(s, drop) == [] <==> All(s, drop)
    ensures TrimStart(s, drop) == [] <==> All(s, drop)
  {
    var t := TrimStart(s, drop);
    var d := TrimStartMeaning(s, drop);
    AllConcat(d, t, drop);
    var e := TrimEndMeaning(t, drop);
    AllConcat(Trim(s, drop), e, drop);
  }

  lemma {:induction false} TrimEndPadded(s: string, pad: string, drop: char -> bool)
    requires All(pad, drop)
    ensures TrimEnd(s + pad, drop) == TrimEnd(s, drop)
  {
    if pad == [] {
      assert s + pad == s;
    } else {
      var n := |pad| - 1;
      assert (s + pad)[..|s + pad| - 1] == s + pad[..n];
      TrimEndPadded(s, pad[..n], drop);
    }
  }

  lemma {:induction false} TrimStartPadded(s: string, pad: string, drop: char -> bool)
    requires All(pad, drop)
    ensures TrimStart(pad + s, drop) == TrimStart(s, drop)
  {
    if pad == [] {
      assert pad + s == s;
    } else {
      assert (pad + s)[1..] == pad[1..] + s;
      TrimStartPadded(s, pad[1..], drop);
    }
  }

  /** Right padding passes through the left half of a trim. */
  lemma {:induction false} TrimStartKeepsRight(s: string, pad: string, drop: char -> bool)
    requires TrimStart(s, drop) != []
    ensures TrimStart(s + pad, drop) == TrimStart(s, drop) + pad
  {
    assert s != [];
    assert (s + pad)[0] == s[0];
    if drop(s[0]) {
      assert (s + pad)[1..] == s[1..] + pad;
      TrimStartKeepsRight(s[1..], pad, drop);
    }
  }

  /** Padding on either side is invisible after a trim of both ends. */
  lemma TrimPadded(left: string, s: string, right: string, drop: char -> bool)
    requires All(left, drop) && All(right, drop)
    ensures Trim(left + s + right, drop) == Trim(s, drop)
  {
    assert left + s + right == left + (s + right);
    TrimStartPadded(s + right, left, drop);
    if TrimStart(s, drop) == [] {
      TrimEmptyIff(s, drop);
      AllConcat(s, right, drop);
      TrimEmptyIff(s + right, drop);
    } else {
      TrimStartKeepsRight(s, right, drop);
      TrimEndPadded(TrimStart(s, drop), right, drop);
    }
  }

  lemma TrimStartMembers(s: string, drop: char -> bool, c: char)
    requires c !in s
    ensures c !in TrimStart(s, drop)
  {
  }

  lemma TrimEndMembers(s: string, drop: char -> bool, c: char)
    requires c !in s
    ensures c !in TrimEnd(s, drop)
  {
  }

  lemma TrimMembers(s: string, drop: char -> bool, c: char)
    requires c !in s
    ensures c !in Trim(s, drop) && c !in TrimEnd(s, drop)
  {
    TrimEndMembers(s, drop, c);
    TrimStartMembers(s, drop, c);
    TrimEndMembers(TrimStart(s, drop), drop, c);
  }

  /** A trim loses no character that it may not drop. */
  lemma TrimKeeps(s: string, drop: char -> bool, c: char)
    requires c in s && !drop(c)
    ensures c in Trim(s, drop) && c in TrimEnd(s, drop)
  {
    var a := TrimEndMeaning(s, drop);
    assert c in TrimEnd(s, drop) + a && c !in a;
    var b := TrimStartMeaning(s, drop);
    assert c in b + TrimStart(s, drop) && c !in b;
    var e := TrimEndMeaning(TrimStart(s, drop), drop);
    assert c in Trim(s, drop) + e && c !in e;
  }

  // ---------- Cutting at a separator ----------

  /** Cuts at the first `c`. */
  function CutFirst(s: string, c: char): (r: Option<(string, string)>)
    ensures r == None <==> c !in s
    ensures r.Some? ==> s == r.value.0 + [c] + r.value.1 && c !in r.value.0
  {
    if s == [] then None
    else if s[0] == c then
      assert s == [] + [c] + s[1..];
      Some(([], s[1..]))
    else
      match CutFirst(s[1..], c)
      case None => None
      case Some((before, after)) =>
        assert s == ([s[0]] + before) + [c] + after;
        Some(([s[0]] + before, after))
  }

  /** Cuts at the last `c`. */
  function CutLast(s: string, c: char): (r: Option<(string, string)>)
    ensures r == None <==> c !in s
    ensures r.Some? ==> s == r.value.0 + [c] + r.value.1 && c !in r.value.1
  {
    if s == [] then None
    else
      var k := |s| - 1;
      if s[k] == c then
        assert s == s[..k] + [c] + [];
        Some((s[..k], []))
      else
        match CutLast(s[..k], c)
        case None =>
          assert s == s[..k] + [s[k]];
          None
        case Some((before, after)) =>
          assert s == before + [c] + (after + [s[k]]);
          Some((before, after + [s[k]]))
  }

  lemma CutFirstAt(before: string, c: char, after: string)
    requires c !in before
    ensures CutFirst(before + [c] + after, c) == Some((before, after))
  {
    var s := before + [c] + after;
    assert s[|before|] == c;
    assert forall i | 0 <= i < |before| :: s[i] == before[i] != c;
    var (b, a) := CutFirst(s, c).value;
    assert s[|b|] == c;
    assert forall i | 0 <= i < |b| :: s[i] == b[i] != c;
    assert b == s[..|before|] == before;
    assert a == s[|before| + 1..] == after;
  }

  lemma {:induction false} CutLastAt(before: string, c: char, after: string)
    requires c !in after
    ensures CutLast(before + [c] + after, c) == Some((before, after))
  {
    var s := before + [c] + after;
    var k := |s| - 1;
    if after == [] {
      assert s[..k] == before;
    } else {
      var m := |after| - 1;
      assert s[k] == after[m];
      assert s[..k] == before + [c] + after[..m];
      CutLastAt(before, c, after[..m]);
      assert after == after[..m] + [after[m]];
    }
  }

  predicate EndsWith(s: string, suffix: string) {
    |suffix| <= |s| && s[|s| - |suffix|..] == suffix
  }

  function StripSuffix(s: string, suffix: string): (r: Option<string>)
    ensures r == None <==> !EndsWith(s, suffix)
    ensures r.Some? ==> s == r.value + suffix
  {
    if EndsWith(s, suffix) then Some(s[..|s| - |suffix|]) else None
  }

  /** `strip_prefix`. */
  function StripPrefix(s: string, prefix: string): (r: Option<string>)
    ensures r == None <==> !(prefix <= s)
    ensures r.Some? ==> s == prefix + r.value
  {
    if prefix <= s then Some(s[|prefix|..]) else None
  }

  lemma StripPrefixAt(prefix: string, rest: string)
    ensures StripPrefix(prefix + rest, prefix) == Some(rest)
  {
  }

  lemma SuffixCancels(a: string, b: string, suffix: string)
    requires a + suffix == b + suffix
    ensures a == b
  {
    assert |a + suffix| == |b + suffix|;
    assert a == (a + suffix)[..|a|];
    assert b == (b + suffix)[..|b|];
  }

  lemma PrefixCancels(prefix: string, a: string, b: string)
    requires prefix + a == prefix + b
    ensures a == b
  {
    assert a == (prefix + a)[|prefix|..];
    assert b == (prefix + b)[|prefix|..];
  }

  // ---------- Segments ----------

  /** The segments of a string with one more character in front. */
  function Prepend(c: char, rest: seq<string>, sep: char): seq<string>
    requires |rest| >= 1
  {
    if c == sep then [[]] + rest else [[c] + rest[0]] + rest[1..]
  }

  /** The segments between separators. The empty string has one empty segment. */
  function Split(s: string, sep: char): (parts: seq<string>)
    ensures |parts| >= 1
    ensures forall i | 0 <= i < |parts| :: sep !in parts[i]
  {
    if s == [] then [[]]
    else
      Prepend(s[0], Split(s[1..], sep), sep)
  }

  function Join(parts: seq<string>, sep: char): string
    requires |parts| >= 1
  {
    if |parts| == 1 then parts[0] else parts[0] + [sep] + Join(parts[1..], sep)
  }

  lemma JoinPrepend(c: char, rest: seq<string>, sep: char)
    requires |rest| >= 1
    ensures Join(Prepend(c, rest, sep), sep) == [c] + Join(rest, sep)
  {
    var parts := Prepend(c, rest, sep);
    if c == sep {
      assert parts[1..] == rest;
    } else {
      assert parts[1..] == rest[1..];
      if |rest| > 1 {
        assert ([c] + rest[0]) + [sep] + Join(rest[1..], sep) == [c] + (rest[0] + [sep] + Join(rest[1..], sep));
      }
    }
  }

  lemma {:induction false} JoinOfSplit(s: string, sep: char)
    ensures Join(Split(s, sep), sep) == s
  {
    if s != [] {
      JoinOfSplit(s[1..], sep);
      JoinPrepend(s[0], Split(s[1..], sep), sep);
    }
  }

  lemma SplitCons(c: char, tail: string, sep: char)
    ensures Split([c] + tail, sep) == Prepend(c, Split(tail, sep), sep)
  {
  }

  lemma PrependConcat(c: char, p: seq<string>, q: seq<string>, sep: char)
    requires |p| >= 1
    ensures Prepend(c, p + q, sep) == Prepend(c, p, sep) + q
  {
  }

  /** Splitting distributes over a separator. */
  lemma {:induction false} SplitConcat(a: string, b: string, sep: char)
    ensures Split(a + [sep] + b, sep) == Split(a, sep) + Split(b, sep)
  {
    var s := a + [sep] + b;
    if a == [] {
      assert s == [sep] + b;
    } else {
      var tail := a[1..] + [sep] + b;
      SplitConcat(a[1..], b, sep);
      assert s == [a[0]] + tail;
      SplitCons(a[0], tail, sep);
      SplitCons(a[0], a[1..], sep);
      assert a == [a[0]] + a[1..];
      PrependConcat(a[0], Split(a[1..], sep), Split(b, sep), sep);
    }
  }

  lemma {:induction false} JoinConcat(p: seq<string>, q: seq<string>, sep: char)
    requires |p| >= 1 && |q| >= 1
    ensures Join(p + q, sep) == Join(p, sep) + [sep] + Join(q, sep)
  {
    assert (p + q)[1..] == p[1..] + q;
    if |p| == 1 {
      assert p[1..] + q == q;
    } else {
      JoinConcat(p[1..], q, sep);
      assert p[0] + [sep] + (Join(p[1..], sep) + [sep] + Join(q, sep))
          == (p[0] + [sep] + Join(p[1..], sep)) + [sep] + Join(q, sep);
    }
  }

  lemma ConcatAssociative(a: string, b: string, c: string)
    ensures (a + b) + c == a + (b + c)
  {
  }

  /** A literal prefix that ends in a separator is a prefix of whole segments, with at least one to follow. */
  lemma DirectoryPrefixIff(dir: string, s: string, sep: char)
    ensures dir + [sep] <= s <==> Split(dir, sep) < Split(s, sep)
  {
    var own, parts := Split(dir, sep), Split(s, sep);
    if dir + [sep] <= s {
      var rest := s[|dir| + 1..];
      assert s == dir + [sep] + rest;
      SplitConcat(dir, rest, sep);
    }
    if own < parts {
      var more := parts[|own|..];
      assert parts == own + more;
      JoinConcat(own, more, sep);
      JoinOfSplit(s, sep);
      JoinOfSplit(dir, sep);
      assert s == dir + [sep] + Join(more, sep);
    }
  }

  // ---------- Decimal integers ----------

  predicate IsDigit(c: char) {
    '0' <= c <= '9'
  }

  function DigitValue(c: char): (d: int)
    requires IsDigit(c)
    ensures 0 <= d < 10
  {
    c as int - '0' as int
  }

  function Digit(d: int): (c: char)
    requires 0 <= d < 10
    ensures IsDigit(c) && DigitValue(c) == d
  {
    ('0' as int + d) as char
  }

  predicate AllDigits(s: string) {
    forall i | 0 <= i < |s| :: IsDigit(s[i])
  }

  /** Decimal text of a natural number, without leading zeros. */
  function PrintNat(n: nat): (s: string)
    ensures s != [] && AllDigits(s)
  {
    if n < 10 then [Digit(n)] else PrintNat(n / 10) + [Digit(n % 10)]
  }

  function NatValue(s: string): nat
    requires AllDigits(s)
  {
    if s == [] then 0 else 10 * NatValue(s[..|s| - 1]) + DigitValue(s[|s| - 1])
  }

  lemma {:induction false} NatRoundTrip(n: nat)
    ensures NatValue(PrintNat(n)) == n
  {
    if n < 10 {
      assert PrintNat(n)[..0] == [];
    } else {
      NatRoundTrip(n / 10);
      assert PrintNat(n)[..|PrintNat(n)| - 1] == PrintNat(n / 10);
    }
  }

  /** `n` without its last `i` decimal digits. */
  function DropDigits(n: nat, i: nat): nat
    decreases i
  {
    if i == 0 then n else DropDigits(n / 10, i - 1)
  }

  lemma DigitText(d: int)
    requires 0 <= d < 10
    ensures Digit(d) == "0123456789"[d]
  {
  }

  /** Counted from the end, each character is the digit of its place. */
  lemma {:induction false} PrintNatDigit(n: nat, i: nat)
    requires i < |PrintNat(n)|
    ensures PrintNat(n)[|PrintNat(n)| - 1 - i] == "0123456789"[DropDigits(n, i) % 10]
  {
    if n < 10 {
      DigitText(n);
    } else if i == 0 {
      DigitText(n % 10);
    } else {
      PrintNatDigit(n / 10, i - 1);
    }
  }

  /** All digits are there, and none is a leading zero. */
  lemma {:induction false} PrintNatComplete(n: nat)
    ensures DropDigits(n, |PrintNat(n)|) == 0
    ensures PrintNat(n)[0] == '0' <==> n == 0
    ensures n == 0 ==> PrintNat(n) == "0"
  {
    if n < 10 {
      DigitText(n);
      assert DropDigits(n, 1) == DropDigits(n / 10, 0);
    } else {
      PrintNatComplete(n / 10);
    }
  }

  /** Decimal text of an integer, with a leading minus for a negative one. */
  function PrintInt(n: int): string {
    if n < 0 then ['-'] + PrintNat(-n) else PrintNat(n)
  }

  /** Reads back exactly the texts that `PrintInt` produces. */
  function ParseInt(s: string): (r: Option<int>)
    ensures r.Some? ==> PrintInt(r.value) == s
  {
    if AllDigits(s) then
      var n := NatValue(s) as int;
      if PrintInt(n) == s then Some(n) else None
    else if AllDigits(s[1..]) then
      var n: int := 0 - NatValue(s[1..]);
      if PrintInt(n) == s then Some(n) else None
    else None
  }

  lemma IntRoundTrip(n: int)
    ensures ParseInt(PrintInt(n)) == Some(n)
  {
    if n < 0 {
      NatRoundTrip(-n);
      var s := PrintInt(n);
      assert s[1..] == PrintNat(-n);
      assert !IsDigit(s[0]);
    } else {
      NatRoundTrip(n);
    }
  }

  lemma PrintIntHasNo(n: int, c: char)
    requires !IsDigit(c) && c != '-'
    ensures c !in PrintInt(n)
  {
  }
}
