/** Revoked artefact hashes, compared without regard to ASCII case. */
module RevocationList {
  import opened Wrappers

  datatype RevocationEntry = RevocationEntry(artifactSha256: string, reason: string)

  function LowerChar(c: char): char {
    if 'A' <= c <= 'Z' then ('a' as int + (c as int - 'A' as int)) as char else c
  }

  /** `to_ascii_lowercase` */
  function Lower(s: string): string {
    seq(|s|, i requires 0 <= i < |s| => LowerChar(s[i]))
  }

  datatype RevocationListSpec = RevocationListSpec(revocations: seq<RevocationEntry>) {
    function UniqueHashes(): set<string> {
      set i | 0 <= i < |revocations| :: Lower(revocations[i].artifactSha256)
    }
  }

  // ---------- Equality up to case ----------

  /** An upper-case letter and the lower-case letter 32 places above it. */
  predicate IsCasePair(upper: char, lower: char) {
    'A' <= upper <= 'Z' && lower as int == upper as int + 32
  }

  predicate EqIgnoringCase(a: string, b: string) {
    && |a| == |b|
    && forall i | 0 <= i < |a| :: a[i] == b[i] || IsCasePair(a[i], b[i]) || IsCasePair(b[i], a[i])
  }

  predicate IsLower(s: string) {
    forall i | 0 <= i < |s| :: !('A' <= s[i] <= 'Z')
  }

  lemma LowerIffEqual(a: string, b: string)
    ensures Lower(a) == Lower(b) <==> EqIgnoringCase(a, b)
  {
    if Lower(a) == Lower(b) {
      forall i | 0 <= i < |a|
        ensures a[i] == b[i] || IsCasePair(a[i], b[i]) || IsCasePair(b[i], a[i])
      {
        assert Lower(a)[i] == Lower(b)[i];
      }
    }
    if EqIgnoringCase(a, b) {
      forall i | 0 <= i < |a| ensures Lower(a)[i] == Lower(b)[i] {
      }
    }
  }

  lemma LowerFixedIff(s: string)
    ensures Lower(s) == s <==> IsLower(s)
    ensures IsLower(Lower(s))
  {
  }

  // ---------- The set ----------

  /** A query is in the set exactly when it is lower-case and some entry equals it up to case. */
  lemma LookupIff(l: RevocationListSpec, query: string)
    ensures query in l.UniqueHashes()
            <==> IsLower(query)
                 && exists i :: 0 <= i < |l.revocations| && EqIgnoringCase(l.revocations[i].artifactSha256, query)
  {
    LowerFixedIff(query);
    forall i | 0 <= i < |l.revocations|
      ensures IsLower(query) ==>
                (Lower(l.revocations[i].artifactSha256) == query
                 <==> EqIgnoringCase(l.revocations[i].artifactSha256, query))
      ensures IsLower(Lower(l.revocations[i].artifactSha256))
    {
      LowerIffEqual(l.revocations[i].artifactSha256, query);
      LowerFixedIff(l.revocations[i].artifactSha256);
    }
  }

  ghost predicate NoDuplicates(l: RevocationListSpec) {
    forall i, j | 0 <= i < j < |l.revocations| ::
      !EqIgnoringCase(l.revocations[i].artifactSha256, l.revocations[j].artifactSha256)
  }

  /** The last entry contributes its own hash, and repeats an earlier one iff they are equal up to case. */
  lemma LastEntry(l: RevocationListSpec, rest: RevocationListSpec, last: string)
    requires l.revocations != []
    requires rest == RevocationListSpec(l.revocations[..|l.revocations| - 1])
    requires last == l.revocations[|l.revocations| - 1].artifactSha256
    ensures l.UniqueHashes() == rest.UniqueHashes() + {Lower(last)}
    ensures Lower(last) in rest.UniqueHashes()
            <==> exists i :: 0 <= i < |rest.revocations| && EqIgnoringCase(rest.revocations[i].artifactSha256, last)
  {
    var n := |l.revocations| - 1;
    assert forall i | 0 <= i < n :: rest.revocations[i] == l.revocations[i];
    assert Lower(last) in l.UniqueHashes();
    assert rest.UniqueHashes() <= l.UniqueHashes();
    forall h | h in l.UniqueHashes() ensures h in rest.UniqueHashes() + {Lower(last)} {
      var i :| 0 <= i <= n && Lower(l.revocations[i].artifactSha256) == h;
      assert i < n ==> Lower(rest.revocations[i].artifactSha256) == h;
    }
    forall i | 0 <= i < n
      ensures Lower(rest.revocations[i].artifactSha256) == Lower(last)
              <==> EqIgnoringCase(rest.revocations[i].artifactSha256, last)
    {
      LowerIffEqual(rest.revocations[i].artifactSha256, last);
    }
  }

  lemma NoDuplicatesStep(l: RevocationListSpec, rest: RevocationListSpec, last: string)
    requires l.revocations != []
    requires rest == RevocationListSpec(l.revocations[..|l.revocations| - 1])
    requires last == l.revocations[|l.revocations| - 1].artifactSha256
    ensures NoDuplicates(l) <==>
            && NoDuplicates(rest)
            && !exists i :: 0 <= i < |rest.revocations| && EqIgnoringCase(rest.revocations[i].artifactSha256, last)
  {
  }

  /**
   The admission webhook's duplicate test: the set is as large as the list exactly when no two
   entries name one hash, and never larger.
   */
  lemma {:induction false} SizeDetectsDuplicates(l: RevocationListSpec)
    ensures |l.UniqueHashes()| == |l.revocations| <==> NoDuplicates(l)
    ensures |l.UniqueHashes()| <= |l.revocations|
    decreases |l.revocations|
  {
    var n := |l.revocations| - 1;
    if n < 0 {
      assert l.UniqueHashes() == {};
    } else {
      var rest, last := RevocationListSpec(l.revocations[..n]), l.revocations[n].artifactSha256;
      SizeDetectsDuplicates(rest);
      LastEntry(l, rest, last);
      NoDuplicatesStep(l, rest, last);
    }
  }
}
