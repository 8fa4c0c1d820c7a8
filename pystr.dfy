/** The few Python `str` operations that patch.py relies on, on `string`
    (a sequence of characters, compared exactly: no case folding).
    The comparisons walk the string one index at a time, so that they
    also compute on concrete file names. */
module PyStr {
  import opened Seqs

  /** `s[i + k .. i + |t|] == t[k..]`, compared one character at a time. */
  predicate MatchFrom(s: string, t: string, i: nat, k: nat)
    requires i + |t| <= |s| && k <= |t|
    decreases |t| - k
  {
    k == |t| || (s[i + k] == t[k] && MatchFrom(s, t, i, k + 1))
  }

  lemma {:induction false} MatchFromSlice(s: string, t: string, i: nat, k: nat)
    requires i + |t| <= |s| && k <= |t|
    ensures MatchFrom(s, t, i, k) <==> s[i + k .. i + |t|] == t[k..]
    decreases |t| - k
  {
    if k < |t| {
      MatchFromSlice(s, t, i, k + 1);
      assert s[i + k .. i + |t|] == [s[i + k]] + s[i + k + 1 .. i + |t|];
      assert t[k..] == [t[k]] + t[k + 1..];
    }
  }

  /** `t` occurs in `s` starting at index `i` (Python's `s.startswith(t, i)`). */
  predicate OccursAt(s: string, t: string, i: nat)
  {
    i + |t| <= |s| && MatchFrom(s, t, i, 0)
  }

  lemma OccursAtSlice(s: string, t: string, i: nat)
    ensures OccursAt(s, t, i) <==> i + |t| <= |s| && s[i .. i + |t|] == t
  {
    if i + |t| <= |s| {
      MatchFromSlice(s, t, i, 0);
    }
  }

  /** `t` occurs in `s` at some index `i` or later. */
  predicate OccursFrom(s: string, t: string, i: nat)
    decreases |s| - i
  {
    i + |t| <= |s| && (MatchFrom(s, t, i, 0) || OccursFrom(s, t, i + 1))
  }

  lemma {:induction false} OccursFromIff(s: string, t: string, i: nat)
    ensures OccursFrom(s, t, i) <==> exists j :: i <= j && OccursAt(s, t, j)
    decreases |s| - i
  {
    if i + |t| <= |s| {
      OccursFromIff(s, t, i + 1);
      if MatchFrom(s, t, i, 0) {
        assert OccursAt(s, t, i);
      }
      if exists j :: i <= j && OccursAt(s, t, j) {
        var j :| i <= j && OccursAt(s, t, j);
        if j == i {
          assert MatchFrom(s, t, i, 0);
        } else {
          assert i + 1 <= j && OccursAt(s, t, j);
        }
      }
    }
  }

  /** `t` occurs in `s` as a substring: the predicate in which the
      contract of `replace` is written. It can only hold when `t` is no
      longer than `s`. */
  predicate Occurs(s: string, t: string)
    ensures Occurs(s, t) ==> |t| <= |s|
  {
    OccursFrom(s, t, 0)
  }

  /** The scanning test holds exactly when some index starts an occurrence. */
  lemma OccursIff(s: string, t: string)
    ensures Occurs(s, t) <==> exists j :: OccursAt(s, t, j)
  {
    OccursFromIff(s, t, 0);
  }

  /** Python's `s.endswith(suffix)`: the last `|suffix|` characters of `s`
      are `suffix`. */
  predicate EndsWith(s: string, suffix: string)
    ensures EndsWith(s, suffix) <==> |suffix| <= |s| && s[|s| - |suffix|..] == suffix
  {
    |suffix| <= |s| && (MatchFromSlice(s, suffix, |s| - |suffix|, 0); MatchFrom(s, suffix, |s| - |suffix|, 0))
  }

  /** A concatenation ends with its second part. */
  lemma EndsWithAppend(a: string, b: string)
    ensures EndsWith(a + b, b)
  {
    assert (a + b)[|a|..] == b;
  }

  /** `s[i..].replace(t, '')`: scans left to right and deletes each
      occurrence of `t`, resuming after it, so occurrences never overlap.
      An empty `t` leaves the string as it is. */
  function RemoveFrom(s: string, t: string, i: nat): (r: string)
    requires i <= |s|
    ensures |r| <= |s| - i
    decreases |s| - i
  {
    if |t| == 0 || |s| - i < |t| then s[i..]
    else if MatchFrom(s, t, i, 0) then RemoveFrom(s, t, i + |t|)
    else [s[i]] + RemoveFrom(s, t, i + 1)
  }

  lemma {:induction false} RemoveFromSubsequence(s: string, t: string, i: nat)
    requires i <= |s|
    ensures IsSubsequence(RemoveFrom(s, t, i), s[i..])
    decreases |s| - i
  {
    if |t| == 0 || |s| - i < |t| {
      SubsequenceRefl(s[i..]);
    } else if MatchFrom(s, t, i, 0) {
      RemoveFromSubsequence(s, t, i + |t|);
      SubsequencePrepend(RemoveFrom(s, t, i + |t|), s[i .. i + |t|], s[i + |t|..]);
      assert s[i .. i + |t|] + s[i + |t|..] == s[i..];
    } else {
      RemoveFromSubsequence(s, t, i + 1);
      SubsequenceCons(s[i], RemoveFrom(s, t, i + 1), s[i + 1..]);
      assert [s[i]] + s[i + 1..] == s[i..];
    }
  }

  lemma {:induction false} RemoveFromNoOccurrence(s: string, t: string, i: nat)
    requires i <= |s| && !OccursFrom(s, t, i)
    ensures RemoveFrom(s, t, i) == s[i..]
    decreases |s| - i
  {
    if |t| != 0 && |s| - i >= |t| {
      RemoveFromNoOccurrence(s, t, i + 1);
      assert [s[i]] + s[i + 1..] == s[i..];
    }
  }

  lemma {:induction false} RemoveFromShortens(s: string, t: string, i: nat)
    requires i <= |s| && |t| > 0 && OccursFrom(s, t, i)
    ensures |RemoveFrom(s, t, i)| < |s| - i
    decreases |s| - i
  {
    if !MatchFrom(s, t, i, 0) {
      RemoveFromShortens(s, t, i + 1);
    }
  }

  /** Python's `s.replace(t, '')` (every call in patch.py replaces with the
      empty string). The result keeps the order of what it keeps, and it
      differs from `s` exactly when a non-empty `t` occurs in `s`. Where it
      differs, `RemoveAllFirst` says how. */
  function RemoveAll(s: string, t: string): (r: string)
    ensures IsSubsequence(r, s) && |r| <= |s|
    ensures |t| == 0 ==> r == s
    ensures |t| > 0 ==> (r == s <==> !Occurs(s, t))
    ensures |t| > 0 && Occurs(s, t) ==> |r| < |s|
  {
    RemoveFromFacts(s, t, 0);
    RemoveFrom(s, t, 0)
  }

  lemma RemoveFromFacts(s: string, t: string, i: nat)
    requires i <= |s|
    ensures IsSubsequence(RemoveFrom(s, t, i), s[i..])
    ensures !OccursFrom(s, t, i) ==> RemoveFrom(s, t, i) == s[i..]
    ensures |t| > 0 && OccursFrom(s, t, i) ==> |RemoveFrom(s, t, i)| < |s| - i
  {
    RemoveFromSubsequence(s, t, i);
    if OccursFrom(s, t, i) {
      if |t| > 0 {
        RemoveFromShortens(s, t, i);
      }
    } else {
      RemoveFromNoOccurrence(s, t, i);
    }
  }

  /** An occurrence at `i + j` in `s` is one at `j` in `s[i..]`. */
  lemma OccursAtShift(s: string, t: string, i: nat, j: nat)
    requires i + j <= |s|
    ensures OccursAt(s, t, i + j) <==> OccursAt(s[i..], t, j)
  {
    OccursAtSlice(s, t, i + j);
    OccursAtSlice(s[i..], t, j);
    if i + j + |t| <= |s| {
      assert s[i + j .. i + j + |t|] == s[i..][j .. j + |t|];
    }
  }

  /** The scan from `i + j` in `s` is the scan from `j` in `s[i..]`. */
  lemma {:induction false} RemoveFromShift(s: string, t: string, i: nat, j: nat)
    requires i + j <= |s|
    ensures RemoveFrom(s, t, i + j) == RemoveFrom(s[i..], t, j)
    decreases |s| - i - j
  {
    if |t| == 0 || |s| - (i + j) < |t| {
      assert s[i..][j..] == s[i + j..];
    } else if MatchFrom(s, t, i + j, 0) {
      RemoveFromShift(s, t, i, j + |t|);
      ShiftMatch(s, t, i, j);
    } else {
      RemoveFromShift(s, t, i, j + 1);
      ShiftMiss(s, t, i, j);
    }
  }

  /** One step of `RemoveFromShift` at an occurrence. */
  lemma ShiftMatch(s: string, t: string, i: nat, j: nat)
    requires |t| > 0 && i + j + |t| <= |s| && MatchFrom(s, t, i + j, 0)
    requires RemoveFrom(s, t, i + (j + |t|)) == RemoveFrom(s[i..], t, j + |t|)
    ensures RemoveFrom(s, t, i + j) == RemoveFrom(s[i..], t, j)
  {
    OccursAtShift(s, t, i, j);
  }

  /** One step of `RemoveFromShift` at a kept character. */
  lemma ShiftMiss(s: string, t: string, i: nat, j: nat)
    requires |t| > 0 && i + j + |t| <= |s| && !MatchFrom(s, t, i + j, 0)
    requires RemoveFrom(s, t, i + (j + 1)) == RemoveFrom(s[i..], t, j + 1)
    ensures RemoveFrom(s, t, i + j) == RemoveFrom(s[i..], t, j)
  {
    OccursAtShift(s, t, i, j);
    assert s[i..][j] == s[i + j];
  }

  /** `t` occurs in `s` at some index below `k`. */
  predicate OccursBefore(s: string, t: string, k: nat)
  {
    k > 0 && (OccursAt(s, t, k - 1) || OccursBefore(s, t, k - 1))
  }

  lemma {:induction false} OccursBeforeIff(s: string, t: string, k: nat)
    ensures OccursBefore(s, t, k) <==> exists j :: 0 <= j < k && OccursAt(s, t, j)
  {
    if k > 0 {
      OccursBeforeIff(s, t, k - 1);
      if OccursAt(s, t, k - 1) {
        assert 0 <= k - 1 < k && OccursAt(s, t, k - 1);
      }
    }
  }

  /** Scanning over a stretch with no occurrence keeps it unchanged. */
  lemma {:induction false} RemoveFromSkip(s: string, t: string, i: nat, k: nat)
    requires i <= k <= |s| && |t| > 0
    requires forall j :: i <= j < k ==> !OccursAt(s, t, j)
    ensures RemoveFrom(s, t, i) == s[i..k] + RemoveFrom(s, t, k)
    decreases k - i
  {
    if i < k {
      assert !OccursAt(s, t, i);
      if |s| - i < |t| {
        assert RemoveFrom(s, t, k) == s[k..];
        assert s[i..k] + s[k..] == s[i..];
      } else {
        RemoveFromSkip(s, t, i + 1, k);
        calc {
          RemoveFrom(s, t, i);
          [s[i]] + RemoveFrom(s, t, i + 1);
          [s[i]] + (s[i + 1..k] + RemoveFrom(s, t, k));
          { AppendAssoc([s[i]], s[i + 1..k], RemoveFrom(s, t, k)); }
          ([s[i]] + s[i + 1..k]) + RemoveFrom(s, t, k);
          { assert [s[i]] + s[i + 1..k] == s[i..k]; }
          s[i..k] + RemoveFrom(s, t, k);
        }
      }
    }
  }

  /** `s.replace(t, '')` cuts out the first occurrence of `t`, at `k`,
      keeps what comes before it, and goes on with what comes after it.
      With the fact that a string without `t` comes back unchanged, this
      determines `replace` on every input, however many occurrences. */
  lemma RemoveAllFirst(s: string, t: string, k: nat)
    requires |t| > 0 && OccursAt(s, t, k) && !OccursBefore(s, t, k)
    ensures RemoveAll(s, t) == s[..k] + RemoveAll(s[k + |t|..], t)
  {
    OccursBeforeIff(s, t, k);
    RemoveFromSkip(s, t, 0, k);
    RemoveFromShift(s, t, k + |t|, 0);
    assert s[0..k] == s[..k];
    assert s[k + |t|..][0..] == s[k + |t|..];
  }

  /** `s.replace(t, '')` when `t` occurs exactly once, at `k`. */
  lemma RemoveAllAt(s: string, t: string, k: nat)
    requires |t| > 0 && OccursAt(s, t, k)
    requires !OccursBefore(s, t, k) && !OccursFrom(s, t, k + |t|)
    ensures RemoveAll(s, t) == s[..k] + s[k + |t|..]
  {
    OccursBeforeIff(s, t, k);
    RemoveFromSkip(s, t, 0, k);
    RemoveFromNoOccurrence(s, t, k + |t|);
  }

  /** An occurrence at `j` puts each character of `t` in its place. */
  lemma OccursAtChar(s: string, t: string, j: nat, m: nat)
    requires OccursAt(s, t, j) && m < |t|
    ensures j + m < |s| && s[j + m] == t[m]
  {
    OccursAtSlice(s, t, j);
    assert s[j .. j + |t|][m] == t[m];
  }

  /** A string that lacks one of the characters of `t` does not contain `t`. */
  lemma MissingCharNoOccurrence(s: string, t: string, m: nat)
    requires m < |t| && t[m] !in s
    ensures !Occurs(s, t)
  {
    OccursIff(s, t);
    if Occurs(s, t) {
      var j :| OccursAt(s, t, j);
      OccursAtChar(s, t, j, m);
    }
  }

  /** Deleting `t` from `a + t` gives `a` when `a` does not contain the first
      character of `t`. */
  lemma RemoveAllSuffix(a: string, t: string)
    requires |t| > 0 && t[0] !in a
    ensures RemoveAll(a + t, t) == a
  {
    var s := a + t;
    OccursAtSlice(s, t, |a|);
    assert s[|a| .. |a| + |t|] == t;
    OccursBeforeIff(s, t, |a|);
    RemoveAllAt(s, t, |a|);
    assert s[..|a|] == a;
  }

  /** The largest index `k < n` with `s[k] == c`, or -1 when there is none
      (Python's `s.rfind(c, 0, n)` for a one-character `c`). */
  function LastIndex(s: string, c: char, n: nat): (k: int)
    requires n <= |s|
    ensures -1 <= k < n
    ensures k >= 0 ==> s[k] == c
    ensures forall j :: k < j < n ==> s[j] != c
    decreases n
  {
    if n == 0 then -1
    else if s[n - 1] == c then n - 1
    else LastIndex(s, c, n - 1)
  }
}
