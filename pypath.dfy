/** Python's `os.path.splitext` on POSIX, which `clean_font_name` calls to
    drop the extension (patch.py:33). The separator is '/', the extension
    separator '.'; a run of dots that starts the last path component is
    part of the name, not the start of an extension. */
module PyPath {
  import opened Seqs
  import opened PyStr

  /** Some character of `p[lo..hi]` is not a dot. */
  predicate HasNonDot(p: string, lo: nat, hi: nat)
    requires lo <= hi <= |p|
    decreases hi - lo
  {
    lo < hi && (p[lo] != '.' || HasNonDot(p, lo + 1, hi))
  }

  lemma {:induction false} HasNonDotIff(p: string, lo: nat, hi: nat)
    requires lo <= hi <= |p|
    ensures HasNonDot(p, lo, hi) <==> exists j :: lo <= j < hi && p[j] != '.'
    decreases hi - lo
  {
    if lo < hi {
      HasNonDotIff(p, lo + 1, hi);
    }
  }

  /** The last path component has a dot that follows a non-dot character. */
  ghost predicate HasExtension(p: string)
  {
    exists j, i :: 0 <= j < i < |p| && p[j] != '.' && p[i] == '.' && '/' !in p[j..]
  }

  /** `os.path.splitext(p)`: (root, ext). The extension starts at the last
      dot, provided that dot lies in the last path component and some
      non-dot character of that component comes before it. What this
      promises: the two parts put back together give the path; an
      extension is a dot followed by neither dot nor '/'; and there is one
      exactly when the last component has a dot after a non-dot character.
      These three facts fix the split uniquely. */
  function SplitExt(p: string): (r: (string, string))
    ensures r.0 + r.1 == p
    ensures r.1 != [] ==> r.1[0] == '.' && forall k :: 0 < k < |r.1| ==> r.1[k] != '.' && r.1[k] != '/'
    ensures r.1 != [] <==> HasExtension(p)
  {
    var sep := LastIndex(p, '/', |p|);
    var dot := LastIndex(p, '.', |p|);
    SplitExtFacts(p, sep, dot);
    if dot > sep && HasNonDot(p, sep + 1, dot) then (p[..dot], p[dot..]) else (p, "")
  }

  lemma SplitExtFacts(p: string, sep: int, dot: int)
    requires sep == LastIndex(p, '/', |p|) && dot == LastIndex(p, '.', |p|)
    ensures dot > sep && HasNonDot(p, sep + 1, dot) ==>
      (forall k :: dot < k < |p| ==> p[k] != '.' && p[k] != '/') && HasExtension(p)
    ensures HasExtension(p) ==> dot > sep && HasNonDot(p, sep + 1, dot)
  {
    if dot > sep && HasNonDot(p, sep + 1, dot) {
      HasNonDotIff(p, sep + 1, dot);
      var j :| sep + 1 <= j < dot && p[j] != '.';
      assert '/' !in p[j..] by {
        forall k | 0 <= k < |p[j..]| ensures p[j..][k] != '/' {
          assert p[j..][k] == p[j + k];
        }
      }
      assert p[dot] == '.';
    }
    if HasExtension(p) {
      var j, i :| 0 <= j < i < |p| && p[j] != '.' && p[i] == '.' && '/' !in p[j..];
      HasNonDotIff(p, sep + 1, dot);
    }
  }

  /** `os.path.splitext(filename)[0]`: the file name without its extension,
      which is a prefix of it, and all of it exactly when there is no
      extension. */
  function Stem(filename: string): (r: string)
    ensures |r| <= |filename| && r == filename[..|r|] && IsSubsequence(r, filename)
    ensures r == filename <==> !HasExtension(filename)
  {
    var (root, ext) := SplitExt(filename);
    assert filename[..|root|] == root;
    SubsequenceAppend(root, ext);
    root
  }

  /** A plain file name: no '/', a first character that is not a dot, and
      an extension that is a dot followed by no further dot. */
  lemma {:induction false} SplitExtPlainName(root: string, ext: string)
    requires root != [] && root[0] != '.' && '/' !in root
    requires ext != [] && ext[0] == '.' && '.' !in ext[1..] && '/' !in ext
    ensures SplitExt(root + ext) == (root, ext)
  {
    var p := root + ext;
    var sep := LastIndex(p, '/', |p|);
    var dot := LastIndex(p, '.', |p|);
    assert p[|root|] == '.';
    assert HasNonDot(p, 0, dot) by {
      HasNonDotIff(p, 0, dot);
      assert p[0] == root[0];
    }
    assert p[..dot] == root;
    assert p[dot..] == ext;
  }
}
