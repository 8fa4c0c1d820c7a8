/** The two stages of patch.py. Stage one (patch.py:29, 60-68) picks the
    font files out of the listing of ../Original and runs ligaturize.py on
    each, under the output name of `FontName.OutputName`; stage two
    (patch.py:71-76) runs font-patcher on every entry of the listing of
    ../Ligaturized. The directory listings are inputs, and each `os.system`
    call is modelled by the command line it is given, collected in the order
    the calls are made. */
module Pipeline {
  import opened Seqs
  import opened PyStr
  import opened PyPath
  import opened FontName

  datatype Option<T> = None | Some(value: T)

  // ---------------------------------------------------------------------
  // Which files are fonts (patch.py:29)
  // ---------------------------------------------------------------------

  /** `f.endswith(('.ttf', '.otf'))`: the last four characters are ".ttf"
      or ".otf", exactly, so ".TTF" is not a font file. */
  predicate IsFontFile(f: string)
    ensures IsFontFile(f) <==> 4 <= |f| && (f[|f| - 4..] == ".ttf" || f[|f| - 4..] == ".otf")
  {
    EndsWith(f, ".ttf") || EndsWith(f, ".otf")
  }

  /** The list comprehension of patch.py:29: the font files of the listing,
      in listing order, each as often as the listing has it. */
  function FontFiles(listing: seq<string>): (r: seq<string>)
    ensures IsSubsequence(r, listing)
    ensures forall f :: f in r ==> IsFontFile(f)
    ensures forall f :: multiset(r)[f] == if IsFontFile(f) then multiset(listing)[f] else 0
  {
    if listing == [] then []
    else
      assert listing == [listing[0]] + listing[1..];
      var rest := FontFiles(listing[1..]);
      if IsFontFile(listing[0]) then
        SubsequenceCons(listing[0], rest, listing[1..]);
        [listing[0]] + rest
      else
        rest
  }

  /** Every font file of the listing gets a job, and nothing else does. */
  lemma FontFilesExactly(listing: seq<string>, f: string)
    ensures f in FontFiles(listing) <==> f in listing && IsFontFile(f)
  {
    var r := FontFiles(listing);
    assert f in r <==> multiset(r)[f] > 0;
    assert f in listing <==> multiset(listing)[f] > 0;
  }

  /** The suffix test is case-sensitive and needs the dot. */
  lemma FontFileExamples()
    ensures IsFontFile("FiraCode-Bold.ttf") && IsFontFile("JetBrains.otf")
    ensures !IsFontFile("FiraCode-Bold.TTF") && !IsFontFile("README.md") && !IsFontFile("ttf")
  {
  }

  // ---------------------------------------------------------------------
  // The command lines (patch.py:66-68 and 74-76)
  // ---------------------------------------------------------------------

  const Quote: string := "\""
  const LigaturePrefix: string := "fontforge -lang py -script ligaturize.py " + Quote + "../Original/"
  const LigatureMiddle: string := Quote + " --output-dir=" + Quote + "../Ligaturized/" + Quote + " --output-name=" + Quote
  const PatchPrefix: string := "fontforge -script font-patcher " + Quote + "../Ligaturized/"
  const PatchFlags: string := "--out " + Quote + "../Output/" + Quote + " --complete --makegroups 4"
  const PatchSuffix: string := Quote + " " + PatchFlags

  /** The stage-one command for `file`, written to ../Ligaturized under
      `outputName`. It carries both: as long as neither holds a '"', they
      can be read back out of it. */
  function LigatureCommand(file: string, outputName: string): (r: string)
    ensures '"' !in file && '"' !in outputName ==> ParseLigatureCommand(r) == Some((file, outputName))
  {
    assert LigatureMiddle[0] == '"';
    if '"' !in file && '"' !in outputName then
      FramedRoundTrip(LigaturePrefix, file, LigatureMiddle, outputName);
      LigaturePrefix + file + LigatureMiddle + outputName + Quote
    else
      LigaturePrefix + file + LigatureMiddle + outputName + Quote
  }

  /** The stage-two command for `file`: it ends with the fixed flags
      `--out "../Output/" --complete --makegroups 4`, whatever the file,
      and a file without '"' can be read back out of it. */
  function PatchCommand(file: string): (r: string)
    ensures EndsWith(r, PatchFlags)
    ensures '"' !in file ==> ParsePatchCommand(r) == Some(file)
  {
    assert PatchSuffix[0] == '"';
    assert PatchPrefix + file + PatchSuffix == (PatchPrefix + file + Quote + " ") + PatchFlags;
    EndsWithAppend(PatchPrefix + file + Quote + " ", PatchFlags);
    if '"' !in file then
      SuffixedRoundTrip(PatchPrefix, file, PatchSuffix);
      PatchPrefix + file + PatchSuffix
    else
      PatchPrefix + file + PatchSuffix
  }

  /** The index of the first '"' in `s`, or `|s|` when there is none. */
  function QuoteIndex(s: string): (k: nat)
    ensures k <= |s|
    ensures forall j :: 0 <= j < k ==> s[j] != '"'
    ensures k < |s| ==> s[k] == '"'
  {
    if s == [] || s[0] == '"' then 0 else 1 + QuoteIndex(s[1..])
  }

  lemma QuoteIndexAppend(a: string, b: string)
    requires '"' !in a && b != [] && b[0] == '"'
    ensures QuoteIndex(a + b) == |a|
  {
    assert (a + b)[|a|] == '"';
    assert forall j :: 0 <= j < |a| ==> (a + b)[j] == a[j];
  }

  /** Reads `file` and `outputName` back out of `p + file + m + outputName
      + '"'`: the file ends at the first '"' after `p`, and `m` starts with
      that '"'. */
  function ParseFramed(cmd: string, p: string, m: string): Option<(string, string)>
  {
    if |cmd| < |p| || cmd[..|p|] != p then None
    else
      var rest := cmd[|p|..];
      var k := QuoteIndex(rest);
      var tail := rest[k..];
      if |tail| < |m| + 1 || tail[..|m|] != m || tail[|tail| - 1] != '"' then None
      else
        var outputName := tail[|m| .. |tail| - 1];
        if '"' in outputName then None else Some((rest[..k], outputName))
  }

  /** Reads `file` back out of `p + file + suffix`, where `suffix` starts
      with a '"'. */
  function ParseSuffixed(cmd: string, p: string, suffix: string): Option<string>
  {
    if |cmd| < |p| || cmd[..|p|] != p then None
    else
      var rest := cmd[|p|..];
      var k := QuoteIndex(rest);
      if rest[k..] != suffix then None else Some(rest[..k])
  }

  lemma FramedRoundTrip(p: string, file: string, m: string, outputName: string)
    requires '"' !in file && '"' !in outputName && |m| > 0 && m[0] == '"'
    ensures ParseFramed(p + file + m + outputName + Quote, p, m) == Some((file, outputName))
  {
    var cmd := p + file + m + outputName + Quote;
    assert cmd == p + (file + (m + outputName + Quote));
    var rest := cmd[|p|..];
    assert rest == file + (m + outputName + Quote);
    QuoteIndexAppend(file, m + outputName + Quote);
    var tail := rest[|file|..];
    assert tail == m + outputName + Quote;
    assert tail[..|m|] == m;
    assert tail[|m| .. |tail| - 1] == outputName;
    assert rest[..|file|] == file;
  }

  /** A string that starts with `p` is `p` followed by the rest. */
  lemma SplitPrefix(s: string, p: string)
    requires |p| <= |s| && s[..|p|] == p
    ensures s == p + s[|p|..]
  {
  }

  /** A string that starts with `m` and ends with '"' is `m`, what lies
      between, and the '"'. */
  lemma SplitFramed(tail: string, m: string)
    requires |m| + 1 <= |tail| && tail[..|m|] == m && tail[|tail| - 1] == '"'
    ensures tail == m + tail[|m| .. |tail| - 1] + Quote
  {
    assert tail[|tail| - 1..] == Quote;
    SplitThree(tail, |m|, |tail| - 1);
  }

  /** A string that starts with `p`, and whose part from `|p| + k` on
      starts with `m` and ends with '"', is put back together from them. */
  lemma Reassemble(cmd: string, p: string, k: nat, m: string)
    requires |p| + k + |m| + 1 <= |cmd| && cmd[..|p|] == p
    requires cmd[|p| + k ..][..|m|] == m && cmd[|cmd| - 1] == '"'
    ensures cmd == p + cmd[|p|..][..k] + m + cmd[|p| + k ..][|m| .. |cmd| - |p| - k - 1] + Quote
  {
    var rest := cmd[|p|..];
    var file, tail := rest[..k], rest[k..];
    assert tail == cmd[|p| + k ..];
    var outputName := tail[|m| .. |tail| - 1];
    SplitPrefix(cmd, p);
    SplitPrefix(rest, file);
    SplitFramed(tail, m);
    AppendAssoc(p, file, tail);
    AppendAssoc(p + file, m + outputName, Quote);
    AppendAssoc(p + file, m, outputName);
  }

  lemma FramedParsed(cmd: string, p: string, m: string)
    requires ParseFramed(cmd, p, m).Some?
    ensures var (file, outputName) := ParseFramed(cmd, p, m).value;
      '"' !in file && '"' !in outputName && cmd == p + file + m + outputName + Quote
  {
    var rest := cmd[|p|..];
    var k := QuoteIndex(rest);
    assert rest[k..] == cmd[|p| + k ..];
    Reassemble(cmd, p, k, m);
  }

  lemma SuffixedRoundTrip(p: string, file: string, suffix: string)
    requires '"' !in file && |suffix| > 0 && suffix[0] == '"'
    ensures ParseSuffixed(p + file + suffix, p, suffix) == Some(file)
  {
    var cmd := p + file + suffix;
    assert cmd == p + (file + suffix);
    var rest := cmd[|p|..];
    assert rest == file + suffix;
    QuoteIndexAppend(file, suffix);
    assert rest[..|file|] == file;
  }

  lemma SuffixedParsed(cmd: string, p: string, suffix: string)
    requires ParseSuffixed(cmd, p, suffix).Some?
    ensures '"' !in ParseSuffixed(cmd, p, suffix).value
    ensures cmd == p + ParseSuffixed(cmd, p, suffix).value + suffix
  {
    var rest := cmd[|p|..];
    var k := QuoteIndex(rest);
    SplitPrefix(cmd, p);
    SplitPrefix(rest, rest[..k]);
    AppendAssoc(p, rest[..k], suffix);
  }

  /** Reads the file and the output name back out of a stage-one command. */
  function ParseLigatureCommand(cmd: string): Option<(string, string)>
  {
    ParseFramed(cmd, LigaturePrefix, LigatureMiddle)
  }

  /** Reads the file back out of a stage-two command. */
  function ParsePatchCommand(cmd: string): Option<string>
  {
    ParseSuffixed(cmd, PatchPrefix, PatchSuffix)
  }

  /** A command that reads back is the stage-one command for what it reads
      back to. */
  lemma LigatureCommandParsed(cmd: string)
    requires ParseLigatureCommand(cmd).Some?
    ensures var (file, outputName) := ParseLigatureCommand(cmd).value;
      '"' !in file && '"' !in outputName && cmd == LigatureCommand(file, outputName)
  {
    FramedParsed(cmd, LigaturePrefix, LigatureMiddle);
  }

  /** The same for stage-two commands. */
  lemma PatchCommandParsed(cmd: string)
    requires ParsePatchCommand(cmd).Some?
    ensures '"' !in ParsePatchCommand(cmd).value
    ensures cmd == PatchCommand(ParsePatchCommand(cmd).value)
  {
    SuffixedParsed(cmd, PatchPrefix, PatchSuffix);
  }

  // ---------------------------------------------------------------------
  // The two loops (patch.py:60-68 and 73-76)
  // ---------------------------------------------------------------------

  /** The output name has no '"' unless the file name has one: both
      branches only delete characters of the file name. */
  lemma OutputNameQuoteFree(file: string)
    requires '"' !in file
    ensures '"' !in OutputName(file)
  {
    if '"' in OutputName(file) {
      SubsequenceMembers(OutputName(file), file, '"');
    }
  }

  /** One `os.system` call per file, in the order of `files`. */
  function Jobs(job: string -> string, files: seq<string>): (r: seq<string>)
    ensures |r| == |files|
    ensures forall i :: 0 <= i < |files| ==> r[i] == job(files[i])
  {
    seq(|files|, i requires 0 <= i < |files| => job(files[i]))
  }

  /** Taking one more file adds its one command at the end. */
  lemma JobsPrefix(job: string -> string, files: seq<string>, i: nat)
    requires i < |files|
    ensures Jobs(job, files[..i + 1]) == Jobs(job, files[..i]) + [job(files[i])]
  {
    var a, b := Jobs(job, files[..i + 1]), Jobs(job, files[..i]) + [job(files[i])];
    forall j | 0 <= j < |a| ensures a[j] == b[j] {
      assert files[..i + 1][j] == files[j];
    }
  }

  /** The stage-one command for one font file, under its output name;
      a file without '"' reads back with that name. */
  function LigatureJob(file: string): (r: string)
    ensures '"' !in file ==> ParseLigatureCommand(r) == Some((file, OutputName(file)))
  {
    if '"' in file then LigatureCommand(file, OutputName(file))
    else
      OutputNameQuoteFree(file);
      LigatureCommand(file, OutputName(file))
  }

  /** The commands stage one issues for `files`: one per file, in order,
      the i-th reading back to the i-th file and its output name. */
  function LigatureCommands(files: seq<string>): (r: seq<string>)
    ensures |r| == |files|
    ensures forall i :: 0 <= i < |files| && '"' !in files[i] ==>
      ParseLigatureCommand(r[i]) == Some((files[i], OutputName(files[i])))
  {
    Jobs(LigatureJob, files)
  }

  /** The commands stage two issues for `files`: one per listed file, with
      no filter, in order, the i-th reading back to the i-th file and
      carrying the fixed flags. */
  function PatchCommands(files: seq<string>): (r: seq<string>)
    ensures |r| == |files|
    ensures forall i :: 0 <= i < |files| ==> EndsWith(r[i], PatchFlags)
    ensures forall i :: 0 <= i < |files| && '"' !in files[i] ==> ParsePatchCommand(r[i]) == Some(files[i])
  {
    Jobs(PatchCommand, files)
  }

  /** The loop of patch.py:60-68: the Consolas names take the replace
      chain, every other file goes through `clean_font_name`. */
  method LigatureStage(fontFiles: seq<string>) returns (commands: seq<string>)
    ensures commands == LigatureCommands(fontFiles)
  {
    commands := [];
    for i := 0 to |fontFiles|
      invariant commands == LigatureCommands(fontFiles[..i])
    {
      var file := fontFiles[i];
      var outputName := ChooseOutputName(file);
      JobsPrefix(LigatureJob, fontFiles, i);
      commands := commands + [LigatureCommand(file, outputName)];
    }
    assert fontFiles[..|fontFiles|] == fontFiles;
  }

  /** The loop of patch.py:73-76: every entry of the listing, unfiltered. */
  method PatchStage(files: seq<string>) returns (commands: seq<string>)
    ensures commands == PatchCommands(files)
  {
    commands := [];
    for i := 0 to |files|
      invariant commands == PatchCommands(files[..i])
    {
      JobsPrefix(PatchCommand, files, i);
      commands := commands + [PatchCommand(files[i])];
    }
    assert files[..|files|] == files;
  }

  /** The whole script: `original` is the listing of ../Original and
      `ligaturized` that of ../Ligaturized once stage one is over. */
  method Run(original: seq<string>, ligaturized: seq<string>)
    returns (ligatureCommands: seq<string>, patchCommands: seq<string>)
    ensures ligatureCommands == LigatureCommands(FontFiles(original))
    ensures patchCommands == PatchCommands(ligaturized)
  {
    var fontFiles := FontFiles(original);
    ligatureCommands := LigatureStage(fontFiles);
    patchCommands := PatchStage(ligaturized);
  }

  /** Stage one of `Run`, stated on the listing: a command per font file
      of the listing, in listing order, none for any other entry. */
  lemma RunStageOne(original: seq<string>, i: nat)
    requires i < |FontFiles(original)| && '"' !in FontFiles(original)[i]
    ensures |LigatureCommands(FontFiles(original))| == |FontFiles(original)|
    ensures var f := FontFiles(original)[i];
      f in original && IsFontFile(f) &&
      ParseLigatureCommand(LigatureCommands(FontFiles(original))[i]) == Some((f, OutputName(f)))
  {
    var files := FontFiles(original);
    SubsequenceMembers(files, original, files[i]);
  }
}
