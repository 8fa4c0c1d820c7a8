/** Output names for the ligature stage: `clean_font_name` (patch.py:31-58)
    and the hard-coded Consolas branch (patch.py:61-64). */
module FontName {
  import opened Seqs
  import opened PyStr
  import opened PyPath

  /** The style tokens, in the order patch.py:36-48 lists them: compound
      styles, hyphenated styles, bare styles, dotted lower-case styles and
      underscored styles. */
  const CompoundStyles: seq<string> := [
    "-ExtraLightItalic", "-BlackItalic", "-BoldItalic", "-LightItalic", "-MediumItalic", "-RegularItalic", "-ThinItalic",
    "-ExtraBoldItalic", "-SemiBoldItalic"]
  const HyphenStyles: seq<string> := [
    "-ExtraLight", "-ExtraBold", "-SemiBold", "-Regular", "-Medium", "-Light", "-Black", "-Bold", "-Thin", "-Italic"]
  const BareStyles: seq<string> := [
    "ExtraLight", "ExtraBold", "SemiBold", "Regular", "Medium", "Light", "Black", "Bold", "Thin", "Italic"]
  const DotStyles: seq<string> := [
    ".extralight", ".extrabold", ".semibold", ".regular", ".medium", ".light", ".black", ".bold", ".thin", ".italic"]
  const UnderscoreStyles: seq<string> := [
    "_ExtraLight", "_ExtraBold", "_SemiBold", "_Regular", "_Medium", "_Light", "_Black", "_Bold", "_Thin", "_Italic"]

  const StyleTable: seq<string> := CompoundStyles + HyphenStyles + BareStyles + DotStyles + UnderscoreStyles

  /** A new list with the elements of `xs`, in order. */
  function Copy(xs: seq<string>): seq<string>
  {
    seq(|xs|, i requires 0 <= i < |xs| => xs[i])
  }

  /** `style_suffixes`: the list literal of patch.py:36-48 is evaluated
      afresh on every call, so each call sorts its own copy of the table
      in place (patch.py:51) and no call sees the order left by another. */
  const StyleSuffixes: seq<string> := Copy(StyleTable)

  lemma StyleSuffixesMembers(x: string)
    ensures x in StyleSuffixes <==>
      x in CompoundStyles || x in HyphenStyles || x in BareStyles || x in DotStyles || x in UnderscoreStyles
  {
    assert StyleSuffixes == StyleTable;
  }

  lemma StyleSuffixesNonEmpty()
    ensures |StyleSuffixes| == 49
    ensures forall x :: x in StyleSuffixes ==> |x| > 0
  {
    forall x | x in StyleSuffixes ensures |x| > 0 {
      StyleSuffixesMembers(x);
    }
  }

  // ---------------------------------------------------------------------
  // `style_suffixes.sort(key=len, reverse=True)` (patch.py:51)
  // ---------------------------------------------------------------------

  /** Longer strings come first. */
  predicate NonIncreasingLength(xs: seq<string>)
  {
    forall i, j :: 0 <= i < j < |xs| ==> |xs[j]| <= |xs[i]|
  }

  /** The elements of `xs` that have length `n`, in their order in `xs`. */
  function WithLength(xs: seq<string>, n: nat): seq<string>
  {
    if xs == [] then []
    else (if |xs[0]| == n then [xs[0]] else []) + WithLength(xs[1..], n)
  }

  /** Puts `x` in front of the first element that is not longer than it. */
  function Insert(x: string, s: seq<string>): (r: seq<string>)
    ensures multiset(r) == multiset{x} + multiset(s)
    ensures r[0] == x || (s != [] && r[0] == s[0])
  {
    if s == [] || |x| >= |s[0]| then [x] + s
    else
      assert s == [s[0]] + s[1..];
      [s[0]] + Insert(x, s[1..])
  }

  /** Inserting into an ordered sequence keeps it ordered. */
  lemma {:induction false} InsertOrdered(x: string, s: seq<string>)
    requires NonIncreasingLength(s)
    ensures NonIncreasingLength(Insert(x, s))
    decreases |s|
  {
    var r := Insert(x, s);
    if s == [] || |x| >= |s[0]| {
      forall i, j | 0 <= i < j < |r| ensures |r[j]| <= |r[i]| {
        if i > 0 {
          assert r[i] == s[i - 1];
        }
        assert r[j] == s[j - 1];
      }
    } else {
      var rest := Insert(x, s[1..]);
      InsertOrdered(x, s[1..]);
      assert r == [s[0]] + rest;
      forall i, j | 0 <= i < j < |r| ensures |r[j]| <= |r[i]| {
        if i == 0 {
          assert |rest[0]| <= |s[0]|;
          if j > 1 {
            assert |rest[j - 1]| <= |rest[0]|;
          }
        } else {
          assert r[i] == rest[i - 1] && r[j] == rest[j - 1];
        }
      }
    }
  }

  /** A stable sort by decreasing length, as Python's `list.sort` with
      `key=len, reverse=True` does: the order is by length, longest first,
      and strings of equal length keep the order they had. */
  function SortByLength(xs: seq<string>): (r: seq<string>)
    ensures NonIncreasingLength(r)
    ensures multiset(r) == multiset(xs)
  {
    if xs == [] then []
    else
      assert xs == [xs[0]] + xs[1..];
      InsertOrdered(xs[0], SortByLength(xs[1..]));
      Insert(xs[0], SortByLength(xs[1..]))
  }

  lemma {:induction false} WithLengthCons(x: string, s: seq<string>, n: nat)
    ensures WithLength([x] + s, n) == (if |x| == n then [x] else []) + WithLength(s, n)
  {
    assert ([x] + s)[0] == x;
    assert ([x] + s)[1..] == s;
  }

  lemma {:induction false} InsertStable(x: string, s: seq<string>, n: nat)
    ensures WithLength(Insert(x, s), n) == WithLength([x] + s, n)
    decreases |s|
  {
    if s != [] && |x| < |s[0]| {
      var r := Insert(x, s[1..]);
      var px := if |x| == n then [x] else [];
      var p0 := if |s[0]| == n then [s[0]] else [];
      InsertStable(x, s[1..], n);
      WithLengthCons(s[0], r, n);
      WithLengthCons(x, s[1..], n);
      WithLengthCons(x, s, n);
      assert px == [] || p0 == [];
      calc {
        WithLength(Insert(x, s), n);
        p0 + WithLength(r, n);
        p0 + (px + WithLength(s[1..], n));
        { AppendAssoc(p0, px, WithLength(s[1..], n)); AppendAssoc(px, p0, WithLength(s[1..], n)); }
        px + (p0 + WithLength(s[1..], n));
        WithLength([x] + s, n);
      }
    }
  }

  /** Stability: for every length, the strings of that length come out in
      the order they went in. */
  lemma {:induction false} SortByLengthStable(xs: seq<string>, n: nat)
    ensures WithLength(SortByLength(xs), n) == WithLength(xs, n)
    decreases |xs|
  {
    if xs != [] {
      SortByLengthStable(xs[1..], n);
      InsertStable(xs[0], SortByLength(xs[1..]), n);
      WithLengthCons(xs[0], SortByLength(xs[1..]), n);
    }
  }

  lemma {:induction false} WithLengthEmpty(xs: seq<string>, n: nat)
    ensures WithLength(xs, n) == [] <==> forall k :: 0 <= k < |xs| ==> |xs[k]| != n
    decreases |xs|
  {
    if xs != [] {
      WithLengthEmpty(xs[1..], n);
      if forall k :: 0 <= k < |xs| ==> |xs[k]| != n {
        forall k | 0 <= k < |xs[1..]| ensures |xs[1..][k]| != n {
          assert xs[1..][k] == xs[k + 1];
        }
      }
      if forall k :: 0 <= k < |xs[1..]| ==> |xs[1..][k]| != n {
        if |xs[0]| != n {
          forall k | 0 <= k < |xs| ensures |xs[k]| != n {
            if k > 0 {
              assert xs[k] == xs[1..][k - 1];
            }
          }
        }
      }
    }
  }

  /** Being ordered by length and keeping the order within each length
      leaves no choice: there is exactly one stable sort of a sequence.
      So `SortByLength` is the order `list.sort` produces. */
  lemma {:induction false} StableSortUnique(a: seq<string>, b: seq<string>)
    requires NonIncreasingLength(a) && NonIncreasingLength(b)
    requires forall n: nat :: WithLength(a, n) == WithLength(b, n)
    ensures a == b
    decreases |a|
  {
    if a == [] || b == [] {
      if a != [] {
        WithLengthEmpty(a, |a[0]|);
        WithLengthEmpty(b, |a[0]|);
      } else if b != [] {
        WithLengthEmpty(a, |b[0]|);
        WithLengthEmpty(b, |b[0]|);
      }
    } else {
      var m, m' := |a[0]|, |b[0]|;
      assert a == [a[0]] + a[1..];
      assert b == [b[0]] + b[1..];
      WithLengthCons(a[0], a[1..], m);
      WithLengthCons(b[0], b[1..], m');
      WithLengthEmpty(b, m);
      WithLengthEmpty(a, m');
      assert WithLength(a, m) == WithLength(b, m);
      assert WithLength(a, m') == WithLength(b, m');
      var k :| 0 <= k < |b| && |b[k]| == m;
      var k' :| 0 <= k' < |a| && |a[k']| == m';
      assert m <= m' && m' <= m;
      WithLengthCons(b[0], b[1..], m);
      assert a[0] == WithLength(a, m)[0] == WithLength(b, m)[0] == b[0];
      forall n: nat ensures WithLength(a[1..], n) == WithLength(b[1..], n) {
        WithLengthCons(a[0], a[1..], n);
        WithLengthCons(b[0], b[1..], n);
        assert WithLength(a, n) == WithLength(b, n);
        var p := if |a[0]| == n then [a[0]] else [];
        assert WithLength(a[1..], n) == WithLength(a, n)[|p|..];
        assert WithLength(b[1..], n) == WithLength(b, n)[|p|..];
      }
      StableSortUnique(a[1..], b[1..]);
    }
  }

  /** The tokens in the order `clean_font_name` tries them. */
  const SortedStyleSuffixes: seq<string> := SortByLength(StyleSuffixes)

  /** A token that is strictly longer than another is tried before it, so
      compound styles such as "-BoldItalic" go before "-Bold" or "Italic". */
  lemma LongerTokenFirst(i: nat, j: nat)
    requires i < |SortedStyleSuffixes| && j < |SortedStyleSuffixes|
    requires |SortedStyleSuffixes[i]| > |SortedStyleSuffixes[j]|
    ensures i < j
  {
  }

  lemma SortedStyleSuffixesSame(x: string)
    ensures x in SortedStyleSuffixes <==> x in StyleSuffixes
  {
    assert multiset(SortedStyleSuffixes) == multiset(StyleSuffixes);
    assert x in SortedStyleSuffixes <==> x in multiset(SortedStyleSuffixes);
  }

  // ---------------------------------------------------------------------
  // The replace loop (patch.py:54-56)
  // ---------------------------------------------------------------------

  /** Deletes every occurrence of each token, one token after another. */
  function StripAll(s: string, toks: seq<string>): (r: string)
    ensures IsSubsequence(r, s) && |r| <= |s|
    decreases |toks|
  {
    if toks == [] then
      SubsequenceRefl(s);
      s
    else
      SubsequenceTrans(StripAll(RemoveAll(s, toks[0]), toks[1..]), RemoveAll(s, toks[0]), s);
      StripAll(RemoveAll(s, toks[0]), toks[1..])
  }

  lemma {:induction false} StripAllAppend(s: string, a: seq<string>, b: seq<string>)
    ensures StripAll(s, a + b) == StripAll(StripAll(s, a), b)
    decreases |a|
  {
    if a == [] {
      assert a + b == b;
    } else {
      StripAllAppend(RemoveAll(s, a[0]), a[1..], b);
      assert (a + b)[0] == a[0];
      assert (a + b)[1..] == a[1..] + b;
    }
  }

  /** A string in which no token occurs comes through unchanged. */
  lemma {:induction false} StripAllNoneOccur(s: string, toks: seq<string>)
    requires forall x :: x in toks ==> !Occurs(s, x)
    ensures StripAll(s, toks) == s
    decreases |toks|
  {
    if toks != [] {
      assert !Occurs(s, toks[0]);
      assert |toks[0]| > 0;
      StripAllNoneOccur(s, toks[1..]);
    }
  }

  /** A string in which some non-empty token occurs comes out shorter. */
  lemma {:induction false} StripAllShortens(s: string, toks: seq<string>, t: string)
    requires t in toks && |t| > 0 && Occurs(s, t)
    ensures |StripAll(s, toks)| < |s|
    decreases |toks|
  {
    if Occurs(s, toks[0]) && |toks[0]| > 0 {
    } else if toks[0] == t {
    } else {
      assert RemoveAll(s, toks[0]) == s;
      StripAllShortens(s, toks[1..], t);
    }
  }

  lemma StripAllOne(s: string, t: string)
    ensures StripAll(s, [t]) == RemoveAll(s, t)
  {
    assert [t][1..] == [];
  }

  /** The first position of `t` in `toks`. */
  function IndexOf(toks: seq<string>, t: string): (k: nat)
    requires t in toks
    ensures k < |toks| && toks[k] == t
    ensures forall j :: 0 <= j < k ==> toks[j] != t
  {
    if toks[0] == t then 0 else 1 + IndexOf(toks[1..], t)
  }

  /** The tokens tried before `t` are at least as long as `t` and differ
      from it, so when no such token occurs, stripping them changes
      nothing. */
  lemma {:induction false} TokensBeforeAbsent(s: string, toks: seq<string>, t: string)
    requires NonIncreasingLength(toks) && t in toks
    requires forall x :: x in toks && x != t && |x| >= |t| ==> !Occurs(s, x)
    ensures StripAll(s, toks[..IndexOf(toks, t)]) == s
  {
    var k := IndexOf(toks, t);
    forall x | x in toks[..k] ensures !Occurs(s, x) {
      var j :| 0 <= j < k && toks[..k][j] == x;
      assert toks[j] == x && |toks[k]| <= |toks[j]|;
    }
    StripAllNoneOccur(s, toks[..k]);
  }

  /** Stripping tokens none of which occurs changes nothing. */
  lemma TokensAfterAbsent(s: string, toks: seq<string>, k: nat)
    requires k <= |toks|
    requires forall x :: x in toks ==> !Occurs(s, x)
    ensures StripAll(s, toks[k..]) == s
  {
    forall x | x in toks[k..] ensures !Occurs(s, x) {
      var j :| 0 <= j < |toks[k..]| && toks[k..][j] == x;
      assert toks[k + j] == x;
    }
    StripAllNoneOccur(s, toks[k..]);
  }

  /** When only one token `t` takes effect: every token tried before it is
      absent, and nothing is left for the tokens after it to delete. */
  lemma StripSingleHit(s: string, toks: seq<string>, t: string, s': string)
    requires NonIncreasingLength(toks) && t in toks
    requires RemoveAll(s, t) == s'
    requires forall x :: x in toks && x != t && |x| >= |t| ==> !Occurs(s, x)
    requires forall x :: x in toks ==> !Occurs(s', x)
    ensures StripAll(s, toks) == s'
  {
    var k := IndexOf(toks, t);
    var before, after := toks[..k], toks[k + 1..];
    TokensBeforeAbsent(s, toks, t);
    TokensAfterAbsent(s', toks, k + 1);
    SplitThree(toks, k, k + 1);
    assert toks[k .. k + 1] == [t];
    StripAllThree(s, before, t, after);
  }

  /** Stripping `before`, then `t`, then `after`. */
  lemma StripAllThree(s: string, before: seq<string>, t: string, after: seq<string>)
    ensures StripAll(s, before + [t] + after) == StripAll(RemoveAll(StripAll(s, before), t), after)
  {
    StripAllAppend(s, before + [t], after);
    StripAllAppend(s, before, [t]);
    StripAllOne(StripAll(s, before), t);
  }

  // ---------------------------------------------------------------------
  // clean_font_name (patch.py:31-58)
  // ---------------------------------------------------------------------

  /** What `clean_font_name(filename)` returns: the stem with every token
      deleted, longest token first. The result only ever loses characters,
      and nothing keeps it from being empty. */
  function CleanedName(filename: string): (r: string)
    ensures IsSubsequence(r, Stem(filename)) && |r| <= |Stem(filename)|
  {
    StripAll(Stem(filename), SortedStyleSuffixes)
  }

  /** No token occurs in the stem (matching is exact, case-sensitive and
      anywhere in the string) if and only if the stem comes back as it is. */
  lemma CleanedNameUnchanged(filename: string)
    ensures CleanedName(filename) == Stem(filename) <==>
            forall x :: x in StyleSuffixes ==> !Occurs(Stem(filename), x)
  {
    var s := Stem(filename);
    StyleSuffixesNonEmpty();
    if forall x :: x in StyleSuffixes ==> !Occurs(s, x) {
      forall x | x in SortedStyleSuffixes ensures !Occurs(s, x) {
        SortedStyleSuffixesSame(x);
      }
      StripAllNoneOccur(s, SortedStyleSuffixes);
    } else {
      var t :| t in StyleSuffixes && Occurs(s, t);
      SortedStyleSuffixesSame(t);
      StripAllShortens(s, SortedStyleSuffixes, t);
    }
  }

  /** `clean_font_name`: strips the extension, sorts a copy of the token
      list by length (longest first) and deletes each token in turn. */
  method CleanFontName(filename: string) returns (cleanedName: string)
    ensures cleanedName == CleanedName(filename)
  {
    var baseName := Stem(filename);
    var styleSuffixes := StyleSuffixes;
    styleSuffixes := SortByLength(styleSuffixes);
    cleanedName := baseName;
    for i := 0 to |styleSuffixes|
      invariant StripAll(cleanedName, styleSuffixes[i..]) == StripAll(baseName, styleSuffixes)
    {
      assert styleSuffixes[i..][1..] == styleSuffixes[i + 1..];
      cleanedName := RemoveAll(cleanedName, styleSuffixes[i]);
    }
    assert styleSuffixes[|styleSuffixes|..] == [];
  }

  /** `CleanedName` when exactly one token `t` takes effect: the stem
      loses every occurrence of `t` and nothing else. */
  lemma CleanedNameSingleHit(filename: string, t: string, s': string)
    requires t in StyleSuffixes && RemoveAll(Stem(filename), t) == s'
    requires forall x :: x in StyleSuffixes && x != t && |x| >= |t| ==> !Occurs(Stem(filename), x)
    requires forall x :: x in StyleSuffixes ==> !Occurs(s', x)
    ensures CleanedName(filename) == s'
  {
    PermutedSingleHit(Stem(filename), SortedStyleSuffixes, StyleSuffixes, t, s');
  }

  /** `StripSingleHit` for any length-ordered permutation of a table, with
      the absence facts stated once on the table itself. */
  lemma PermutedSingleHit(s: string, toks: seq<string>, table: seq<string>, t: string, s': string)
    requires NonIncreasingLength(toks) && multiset(toks) == multiset(table)
    requires t in table && RemoveAll(s, t) == s'
    requires forall x :: x in table && x != t && |x| >= |t| ==> !Occurs(s, x)
    requires forall x :: x in table ==> !Occurs(s', x)
    ensures StripAll(s, toks) == s'
  {
    assert t in multiset(table);
    forall x | x in toks ensures x in table {
      assert x in multiset(toks);
    }
    StripSingleHit(s, toks, t, s');
  }

  // ---------------------------------------------------------------------
  // The shape of the table: every token is either a word or a separator
  // followed by a word, so a token never has a separator after its start
  // ---------------------------------------------------------------------

  predicate IsSeparator(c: char)
  {
    c == '-' || c == '.' || c == '_'
  }

  predicate IsLetter(c: char)
  {
    'a' <= c <= 'z' || 'A' <= c <= 'Z'
  }

  /** Every character of `s` from index `k` on is an ASCII letter. */
  predicate LettersFrom(s: string, k: nat)
    decreases |s| - k
  {
    k >= |s| || (IsLetter(s[k]) && LettersFrom(s, k + 1))
  }

  lemma {:induction false} LettersFromIff(s: string, k: nat)
    ensures LettersFrom(s, k) <==> forall j :: k <= j < |s| ==> IsLetter(s[j])
    decreases |s| - k
  {
    if k < |s| {
      LettersFromIff(s, k + 1);
    }
  }

  /** One or more letters. */
  predicate IsWord(x: string)
  {
    |x| > 0 && LettersFrom(x, 0)
  }

  /** A separator followed by one or more letters. */
  predicate IsSeparated(x: string)
  {
    |x| > 1 && IsSeparator(x[0]) && LettersFrom(x, 1)
  }

  lemma BareStylesAreWords()
    ensures forall x :: x in BareStyles ==> IsWord(x)
  {
  }

  lemma CompoundStylesAreSeparated()
    ensures forall x :: x in CompoundStyles ==> IsSeparated(x)
  {
    assert IsSeparated(CompoundStyles[0]);
    assert IsSeparated(CompoundStyles[1]);
    assert IsSeparated(CompoundStyles[2]);
    assert IsSeparated(CompoundStyles[3]);
    assert IsSeparated(CompoundStyles[4]);
    assert IsSeparated(CompoundStyles[5]);
    assert IsSeparated(CompoundStyles[6]);
    assert IsSeparated(CompoundStyles[7]);
    assert IsSeparated(CompoundStyles[8]);
  }

  lemma HyphenStylesAreSeparated()
    ensures forall x :: x in HyphenStyles ==> IsSeparated(x)
  {
  }

  lemma DotStylesAreSeparated()
    ensures forall x :: x in DotStyles ==> IsSeparated(x)
  {
  }

  lemma UnderscoreStylesAreSeparated()
    ensures forall x :: x in UnderscoreStyles ==> IsSeparated(x)
  {
  }

  /** The bare styles are words; every other token is a separator and a word. */
  lemma StyleTokenShape(x: string)
    requires x in StyleSuffixes
    ensures x in BareStyles ==> IsWord(x)
    ensures x !in BareStyles ==> IsSeparated(x)
  {
    StyleSuffixesMembers(x);
    BareStylesAreWords();
    CompoundStylesAreSeparated();
    HyphenStylesAreSeparated();
    DotStylesAreSeparated();
    UnderscoreStylesAreSeparated();
  }

  // ---------------------------------------------------------------------
  // Names made of letters, with or without one style suffix
  // ---------------------------------------------------------------------

  /** No token of `g` from index `i` on occurs in `s`; walks `g` so that it
      can be checked on a concrete name. */
  predicate NoneOccurFrom(s: string, g: seq<string>, i: nat)
    decreases |g| - i
  {
    i >= |g| || (!Occurs(s, g[i]) && NoneOccurFrom(s, g, i + 1))
  }

  lemma {:induction false} NoneOccurFromIff(s: string, g: seq<string>, i: nat)
    ensures NoneOccurFrom(s, g, i) <==> forall j :: i <= j < |g| ==> !Occurs(s, g[j])
    decreases |g| - i
  {
    if i < |g| {
      NoneOccurFromIff(s, g, i + 1);
    }
  }

  /** A name that contains none of the ten bare style words, stated word by
      word so that each fact can be checked on a concrete name. */
  lemma NoStyleWord(name: string)
    requires !Occurs(name, BareStyles[0]) && !Occurs(name, BareStyles[1])
    requires !Occurs(name, BareStyles[2]) && !Occurs(name, BareStyles[3])
    requires !Occurs(name, BareStyles[4]) && !Occurs(name, BareStyles[5])
    requires !Occurs(name, BareStyles[6]) && !Occurs(name, BareStyles[7])
    requires !Occurs(name, BareStyles[8]) && !Occurs(name, BareStyles[9])
    ensures NoneOccurFrom(name, BareStyles, 0)
  {
    assert NoneOccurFrom(name, BareStyles, 8);
    assert NoneOccurFrom(name, BareStyles, 6);
    assert NoneOccurFrom(name, BareStyles, 4);
    assert NoneOccurFrom(name, BareStyles, 2);
  }

  /** A name of letters that contains none of the bare style words contains
      no token at all: every other token starts with a separator. */
  lemma NoTokenInWord(name: string)
    requires LettersFrom(name, 0) && NoneOccurFrom(name, BareStyles, 0)
    ensures forall x :: x in StyleSuffixes ==> !Occurs(name, x)
  {
    NoneOccurFromIff(name, BareStyles, 0);
    LettersFromIff(name, 0);
    forall x | x in StyleSuffixes ensures !Occurs(name, x) {
      StyleTokenShape(x);
      if x !in BareStyles {
        MissingCharNoOccurrence(name, x, 0);
      }
    }
  }

  /** An extension as font files have them: a dot, then letters. */
  predicate IsExtension(ext: string)
  {
    |ext| > 1 && ext[0] == '.' && LettersFrom(ext, 1)
  }

  /** The stem of a root without '/' and not starting with a dot, followed by
      such an extension, is the root. */
  lemma StemOfRoot(root: string, ext: string)
    requires root != [] && root[0] != '.' && '/' !in root && IsExtension(ext)
    ensures Stem(root + ext) == root
  {
    LettersFromIff(ext, 1);
    assert '.' !in ext[1..] && '/' !in ext[1..];
    assert ext == [ext[0]] + ext[1..];
    SplitExtPlainName(root, ext);
  }

  /** A token at least as long as the suffix `t` and other than it cannot
      occur in `name + t`: inside `name` it is excluded, and one that reaches
      into `t` would have `t`'s separator after its first character. */
  lemma LongerTokenAbsent(name: string, t: string, x: string)
    requires LettersFrom(name, 0) && IsSeparated(t)
    requires |x| > 0 && LettersFrom(x, 1) && |x| >= |t| && x != t
    requires !Occurs(name, x)
    ensures !Occurs(name + t, x)
  {
    var s := name + t;
    OccursIff(s, x);
    if Occurs(s, x) {
      var j :| 0 <= j && OccursAt(s, x, j);
      OccursAtSlice(s, x, j);
      if j + |x| <= |name| {
        assert s[j .. j + |x|] == name[j .. j + |x|];
        OccursAtSlice(name, x, j);
        OccursIff(name, x);
      } else {
        var m := |name| - j;
        OccursAtChar(s, x, j, m);
        assert s[|name|] == t[0];
        if m > 0 {
          LettersFromIff(x, 1);
        }
      }
    }
  }

  /** A name of letters with no style word in it comes back unchanged. */
  lemma CleanedPlainName(name: string, ext: string)
    requires IsWord(name) && NoneOccurFrom(name, BareStyles, 0) && IsExtension(ext)
    ensures CleanedName(name + ext) == name
  {
    LettersFromIff(name, 0);
    StemOfRoot(name, ext);
    NoTokenInWord(name);
    CleanedNameUnchanged(name + ext);
  }

  /** `name + t` is a plain root: no '/' and no leading dot. */
  lemma StyledRootPlain(name: string, t: string)
    requires IsWord(name) && IsSeparated(t)
    ensures name + t != [] && (name + t)[0] != '.' && '/' !in name + t
  {
    var stem := name + t;
    LettersFromIff(name, 0);
    LettersFromIff(t, 1);
    forall i | 0 <= i < |stem| ensures stem[i] != '/' {
      if i >= |name| {
        assert stem[i] == t[i - |name|];
      }
    }
  }

  /** No token longer than a separated suffix `t` occurs in `name + t`. */
  lemma StyledLongerAbsent(name: string, t: string)
    requires IsWord(name) && NoneOccurFrom(name, BareStyles, 0)
    requires t in StyleSuffixes && IsSeparated(t)
    ensures forall x :: x in StyleSuffixes && x != t && |x| >= |t| ==> !Occurs(name + t, x)
  {
    LettersFromIff(name, 0);
    NoTokenInWord(name);
    forall x | x in StyleSuffixes && x != t && |x| >= |t| ensures !Occurs(name + t, x) {
      StyleTokenShape(x);
      LongerTokenAbsent(name, t, x);
    }
  }

  /** A name of letters followed by one separated style token (such as
      "-Bold", ".bold" or "_Bold") and an extension is cleaned to the name. */
  lemma CleanedStyledName(name: string, t: string, ext: string)
    requires IsWord(name) && NoneOccurFrom(name, BareStyles, 0)
    requires t in StyleSuffixes && t !in BareStyles
    requires IsExtension(ext)
    ensures CleanedName(name + t + ext) == name
  {
    StyleTokenShape(t);
    StyledRootPlain(name, t);
    StemOfRoot(name + t, ext);
    LettersFromIff(name, 0);
    RemoveAllSuffix(name, t);
    NoTokenInWord(name);
    StyledLongerAbsent(name, t);
    CleanedNameSingleHit(name + t + ext, t, name);
  }

  /** A token at least as long as the suffix `t` and other than it cannot
      occur in `name + t + t` either: one that reaches into the second `t`
      would have a separator after its first character, and one that starts
      there would be `t` itself. */
  lemma LongerTokenAbsentTwice(name: string, t: string, x: string)
    requires LettersFrom(name, 0) && IsSeparated(t)
    requires |x| > 0 && LettersFrom(x, 1) && |x| >= |t| && x != t
    requires !Occurs(name, x)
    ensures !Occurs(name + t + t, x)
  {
    var s, c := name + t + t, |name| + |t|;
    LongerTokenAbsent(name, t, x);
    OccursIff(s, x);
    if Occurs(s, x) {
      var j :| 0 <= j && OccursAt(s, x, j);
      OccursAtSlice(s, x, j);
      if j + |x| <= c {
        assert s[j .. j + |x|] == (name + t)[j .. j + |x|];
        OccursAtSlice(name + t, x, j);
        OccursIff(name + t, x);
      } else if j < c {
        OccursAtChar(s, x, j, c - j);
        assert s[c] == t[0];
        LettersFromIff(x, 1);
      }
    }
  }

  /** `name + t + t` is a plain root: no '/' and no leading dot. */
  lemma DoubledRootPlain(name: string, t: string)
    requires IsWord(name) && IsSeparated(t)
    ensures name + t + t != [] && (name + t + t)[0] != '.' && '/' !in name + t + t
  {
    var stem := name + t + t;
    StyledRootPlain(name, t);
    LettersFromIff(t, 1);
    forall i | 0 <= i < |stem| ensures stem[i] != '/' {
      if i < |name + t| {
        assert stem[i] == (name + t)[i];
      } else {
        assert stem[i] == t[i - |name + t|];
      }
    }
  }

  /** `replace` deletes both copies of a doubled separated suffix: the
      first is the first occurrence, and the rest is `t` alone. */
  lemma RemoveDoubledSuffix(name: string, t: string)
    requires LettersFrom(name, 0) && IsSeparated(t)
    ensures RemoveAll(name + t + t, t) == name
  {
    var s := name + t + t;
    LettersFromIff(name, 0);
    assert s[|name| .. |name| + |t|] == t;
    OccursAtSlice(s, t, |name|);
    OccursBeforeIff(s, t, |name|);
    assert forall j :: 0 <= j < |name| ==> !OccursAt(s, t, j);
    RemoveAllFirst(s, t, |name|);
    assert s[..|name|] == name && s[|name| + |t|..] == [] + t;
    RemoveAllSuffix([], t);
  }

  /** A name of letters followed by the same separated style token twice
      ("Fira-Bold-Bold") and an extension is cleaned to the name: `replace`
      deletes every occurrence, not only the first. */
  lemma CleanedDoubledStyle(name: string, t: string, ext: string)
    requires IsWord(name) && NoneOccurFrom(name, BareStyles, 0)
    requires t in StyleSuffixes && t !in BareStyles
    requires IsExtension(ext)
    ensures CleanedName(name + t + t + ext) == name
  {
    StyleTokenShape(t);
    DoubledRootPlain(name, t);
    StemOfRoot(name + t + t, ext);
    RemoveDoubledSuffix(name, t);
    LettersFromIff(name, 0);
    NoTokenInWord(name);
    forall x | x in StyleSuffixes && x != t && |x| >= |t| ensures !Occurs(name + t + t, x) {
      StyleTokenShape(x);
      LongerTokenAbsentTwice(name, t, x);
    }
    CleanedNameSingleHit(name + t + t + ext, t, name);
  }

  /** A file named by a bare style word alone is cleaned to the empty
      string: nothing guarantees a non-empty output name. */
  lemma CleanedStyleWordOnly(t: string, ext: string)
    requires t in BareStyles && IsExtension(ext)
    ensures CleanedName(t + ext) == ""
  {
    BareStylesAreWords();
    StyleSuffixesMembers(t);
    LettersFromIff(t, 0);
    StemOfRoot(t, ext);
    assert [] + t == t;
    RemoveAllSuffix([], t);
    forall x | x in StyleSuffixes && x != t && |x| >= |t| ensures !Occurs(t, x) {
      OccursIff(t, x);
      if Occurs(t, x) {
        var j :| 0 <= j && OccursAt(t, x, j);
        OccursAtSlice(t, x, j);
      }
    }
    StyleSuffixesNonEmpty();
    CleanedNameSingleHit(t + ext, t, []);
  }

  // ---------------------------------------------------------------------
  // The cases of test_patch.py, and what the code does beyond them
  // ---------------------------------------------------------------------

  // test_patch.py:5-15: one style suffix, removed.

  lemma CleanedFiraCodeBoldTtf()
    ensures CleanedName("FiraCode" + "-Bold" + ".ttf") == "FiraCode"
  {
    assert IsWord("FiraCode") && IsExtension(".ttf");
    NoStyleWord("FiraCode");
    assert "-Bold" in HyphenStyles;
    StyleSuffixesMembers("-Bold");
    CleanedStyledName("FiraCode", "-Bold", ".ttf");
  }

  lemma CleanedJetBrainsRegularOtf()
    ensures CleanedName("JetBrains" + "-Regular" + ".otf") == "JetBrains"
  {
    assert IsWord("JetBrains") && IsExtension(".otf");
    NoStyleWord("JetBrains");
    assert "-Regular" in HyphenStyles;
    StyleSuffixesMembers("-Regular");
    CleanedStyledName("JetBrains", "-Regular", ".otf");
  }

  lemma CleanedHackItalicTtf()
    ensures CleanedName("Hack" + "_Italic" + ".ttf") == "Hack"
  {
    assert IsWord("Hack") && IsExtension(".ttf");
    NoStyleWord("Hack");
    assert "_Italic" in UnderscoreStyles;
    StyleSuffixesMembers("_Italic");
    CleanedStyledName("Hack", "_Italic", ".ttf");
  }

  lemma CleanedSourceCodeboldTtf()
    ensures CleanedName("SourceCode" + ".bold" + ".ttf") == "SourceCode"
  {
    assert IsWord("SourceCode") && IsExtension(".ttf");
    NoStyleWord("SourceCode");
    assert ".bold" in DotStyles;
    StyleSuffixesMembers(".bold");
    CleanedStyledName("SourceCode", ".bold", ".ttf");
  }

  lemma CleanedMonoLisaRegularTtf()
    ensures CleanedName("MonoLisa" + "-Regular" + ".ttf") == "MonoLisa"
  {
    assert IsWord("MonoLisa") && IsExtension(".ttf");
    NoStyleWord("MonoLisa");
    assert "-Regular" in HyphenStyles;
    StyleSuffixesMembers("-Regular");
    CleanedStyledName("MonoLisa", "-Regular", ".ttf");
  }

  // The inputs of test_patch.py:17-27. That test expects these weights to
  // be kept; the code removes them like any other token, and the model
  // follows the code.

  lemma CleanedFiraCodeMediumTtf()
    ensures CleanedName("FiraCode" + "-Medium" + ".ttf") == "FiraCode"
  {
    assert IsWord("FiraCode") && IsExtension(".ttf");
    NoStyleWord("FiraCode");
    assert "-Medium" in HyphenStyles;
    StyleSuffixesMembers("-Medium");
    CleanedStyledName("FiraCode", "-Medium", ".ttf");
  }

  lemma CleanedJetBrainsExtraBoldOtf()
    ensures CleanedName("JetBrains" + "-ExtraBold" + ".otf") == "JetBrains"
  {
    assert IsWord("JetBrains") && IsExtension(".otf");
    NoStyleWord("JetBrains");
    assert "-ExtraBold" in HyphenStyles;
    StyleSuffixesMembers("-ExtraBold");
    CleanedStyledName("JetBrains", "-ExtraBold", ".otf");
  }

  lemma CleanedHackExtraLightTtf()
    ensures CleanedName("Hack" + "-ExtraLight" + ".ttf") == "Hack"
  {
    assert IsWord("Hack") && IsExtension(".ttf");
    NoStyleWord("Hack");
    assert "-ExtraLight" in HyphenStyles;
    StyleSuffixesMembers("-ExtraLight");
    CleanedStyledName("Hack", "-ExtraLight", ".ttf");
  }

  lemma CleanedSourceCodeLightTtf()
    ensures CleanedName("SourceCode" + "-Light" + ".ttf") == "SourceCode"
  {
    assert IsWord("SourceCode") && IsExtension(".ttf");
    NoStyleWord("SourceCode");
    assert "-Light" in HyphenStyles;
    StyleSuffixesMembers("-Light");
    CleanedStyledName("SourceCode", "-Light", ".ttf");
  }

  lemma CleanedMonoLisaSemiBoldTtf()
    ensures CleanedName("MonoLisa" + "-SemiBold" + ".ttf") == "MonoLisa"
  {
    assert IsWord("MonoLisa") && IsExtension(".ttf");
    NoStyleWord("MonoLisa");
    assert "-SemiBold" in HyphenStyles;
    StyleSuffixesMembers("-SemiBold");
    CleanedStyledName("MonoLisa", "-SemiBold", ".ttf");
  }

  // test_patch.py:29-37: no style suffix, the stem as it is.

  lemma CleanedFiraCodeTtf()
    ensures CleanedName("FiraCode" + ".ttf") == "FiraCode"
  {
    assert IsWord("FiraCode") && IsExtension(".ttf");
    NoStyleWord("FiraCode");
    CleanedPlainName("FiraCode", ".ttf");
  }

  lemma CleanedJetBrainsOtf()
    ensures CleanedName("JetBrains" + ".otf") == "JetBrains"
  {
    assert IsWord("JetBrains") && IsExtension(".otf");
    NoStyleWord("JetBrains");
    CleanedPlainName("JetBrains", ".otf");
  }

  lemma CleanedSimpleFontTtf()
    ensures CleanedName("SimpleFont" + ".ttf") == "SimpleFont"
  {
    assert IsWord("SimpleFont") && IsExtension(".ttf");
    NoStyleWord("SimpleFont");
    CleanedPlainName("SimpleFont", ".ttf");
  }

  // Beyond the tests: matching is case-sensitive, so a lower-case "bold"
  // without a dot stays; a file named by a style alone gets the empty name;
  // and a style that occurs twice is deleted twice.

  lemma CleanedHackboldTtf()
    ensures CleanedName("Hackbold" + ".ttf") == "Hackbold"
  {
    assert IsWord("Hackbold") && IsExtension(".ttf");
    NoStyleWord("Hackbold");
    CleanedPlainName("Hackbold", ".ttf");
  }

  lemma CleanedBoldTtf()
    ensures CleanedName("Bold" + ".ttf") == ""
  {
    assert "Bold" in BareStyles && IsExtension(".ttf");
    CleanedStyleWordOnly("Bold", ".ttf");
  }

  lemma CleanedFiraBoldBoldTtf()
    ensures CleanedName("Fira" + "-Bold" + "-Bold" + ".ttf") == "Fira"
  {
    assert IsWord("Fira") && IsExtension(".ttf");
    NoStyleWord("Fira");
    assert "-Bold" in HyphenStyles;
    StyleSuffixesMembers("-Bold");
    CleanedDoubledStyle("Fira", "-Bold", ".ttf");
  }

  // ---------------------------------------------------------------------
  // The Consolas branch (patch.py:61-64)
  // ---------------------------------------------------------------------

  /** The four file names that bypass `clean_font_name` (patch.py:61). */
  const LegacyConsolaNames: seq<string> := ["consolaz.ttf", "consolai.ttf", "consolab.ttf", "consola.ttf"]

  /** The chain of replaces of patch.py:62. Like every replace, it only
      deletes characters of the file name. */
  function LegacyOutputName(file: string): (r: string)
    ensures IsSubsequence(r, file) && |r| <= |file|
  {
    var a := RemoveAll(file, "b.ttf");
    var b := RemoveAll(a, "i.ttf");
    var c := RemoveAll(b, "z.ttf");
    SubsequenceTrans(c, b, a);
    SubsequenceTrans(c, a, file);
    SubsequenceTrans(RemoveAll(c, ".ttf"), c, file);
    RemoveAll(c, ".ttf")
  }

  /** The output name the ligature stage passes for `file` (patch.py:61-64):
      "consola" for the four Consolas files, the cleaned name for any other.
      Either way it only deletes characters of the file name. */
  function OutputName(file: string): (r: string)
    ensures IsSubsequence(r, file)
    ensures file in LegacyConsolaNames ==> r == "consola"
    ensures file !in LegacyConsolaNames ==> r == CleanedName(file)
  {
    if file in LegacyConsolaNames then
      LegacyNamesGiveConsola(file);
      LegacyOutputName(file)
    else
      SubsequenceTrans(CleanedName(file), Stem(file), file);
      CleanedName(file)
  }

  /** The branch of patch.py:61-64 that picks the output name of one file. */
  method ChooseOutputName(file: string) returns (outputName: string)
    ensures outputName == OutputName(file)
  {
    if file in LegacyConsolaNames {
      outputName := LegacyOutputName(file);
    } else {
      outputName := CleanFontName(file);
    }
  }

  /** The replace chain on each of the four names, each written as
      "consola" and the part the chain deletes: only that part's replace
      finds anything. */
  lemma LegacyConsolazTtf()
    ensures LegacyOutputName("consola" + "z.ttf") == "consola"
  {
    MissingCharNoOccurrence("consola" + "z.ttf", "b.ttf", 0);
    MissingCharNoOccurrence("consola" + "z.ttf", "i.ttf", 0);
    RemoveAllSuffix("consola", "z.ttf");
    MissingCharNoOccurrence("consola", ".ttf", 0);
  }

  lemma LegacyConsolaiTtf()
    ensures LegacyOutputName("consola" + "i.ttf") == "consola"
  {
    MissingCharNoOccurrence("consola" + "i.ttf", "b.ttf", 0);
    RemoveAllSuffix("consola", "i.ttf");
    MissingCharNoOccurrence("consola", "z.ttf", 0);
    MissingCharNoOccurrence("consola", ".ttf", 0);
  }

  lemma LegacyConsolabTtf()
    ensures LegacyOutputName("consola" + "b.ttf") == "consola"
  {
    RemoveAllSuffix("consola", "b.ttf");
    MissingCharNoOccurrence("consola", "i.ttf", 0);
    MissingCharNoOccurrence("consola", "z.ttf", 0);
    MissingCharNoOccurrence("consola", ".ttf", 0);
  }

  lemma LegacyConsolaTtf()
    ensures LegacyOutputName("consola" + ".ttf") == "consola"
  {
    MissingCharNoOccurrence("consola" + ".ttf", "b.ttf", 0);
    MissingCharNoOccurrence("consola" + ".ttf", "i.ttf", 0);
    MissingCharNoOccurrence("consola" + ".ttf", "z.ttf", 0);
    RemoveAllSuffix("consola", ".ttf");
  }

  /** All four Consolas files share the output name "consola". */
  lemma LegacyNamesGiveConsola(file: string)
    requires file in LegacyConsolaNames
    ensures LegacyOutputName(file) == "consola"
  {
    var k :| 0 <= k < |LegacyConsolaNames| && LegacyConsolaNames[k] == file;
    if k == 0 {
      assert file == "consola" + "z.ttf";
      LegacyConsolazTtf();
    } else if k == 1 {
      assert file == "consola" + "i.ttf";
      LegacyConsolaiTtf();
    } else if k == 2 {
      assert file == "consola" + "b.ttf";
      LegacyConsolabTtf();
    } else {
      assert file == "consola" + ".ttf";
      LegacyConsolaTtf();
    }
  }

  // Why the bypass exists: `clean_font_name` knows no one-letter style, so
  // it would keep the style letter of three of the four files.

  lemma CleanedConsolabTtf()
    ensures CleanedName("consolab" + ".ttf") == "consolab"
  {
    assert IsWord("consolab") && IsExtension(".ttf");
    NoStyleWord("consolab");
    CleanedPlainName("consolab", ".ttf");
  }

  lemma CleanedConsolaiTtf()
    ensures CleanedName("consolai" + ".ttf") == "consolai"
  {
    assert IsWord("consolai") && IsExtension(".ttf");
    NoStyleWord("consolai");
    CleanedPlainName("consolai", ".ttf");
  }

  lemma CleanedConsolazTtf()
    ensures CleanedName("consolaz" + ".ttf") == "consolaz"
  {
    assert IsWord("consolaz") && IsExtension(".ttf");
    NoStyleWord("consolaz");
    CleanedPlainName("consolaz", ".ttf");
  }
}
