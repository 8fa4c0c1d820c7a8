# Nerd-Font-Ligaturized patch script, modelled in Dafny

`patch.py` turns a folder of font files into ligaturized Nerd Fonts in two
stages. Stage one keeps the `.ttf` and `.otf` entries of the listing of
`../Original`. For each of them it runs `ligaturize.py` under fontforge,
with an output name. The output name is the file's stem with every known
style suffix deleted by `clean_font_name`, except for four Consolas file
names, which take a fixed chain of replaces instead. Stage two runs
`font-patcher` on every entry of the listing of `../Ligaturized`, with the
fixed flags `--complete --makegroups 4` and output to `../Output/`.

The model has five modules:

- `Seqs`: subsequences, which is how "only deletes characters" and "keeps
  listing order" are stated.
- `PyStr`: the Python string operations the script uses: `endswith` and
  `replace(t, '')`, with the substring-occurrence predicate in which
  `replace`'s contract is written. Matching is exact and scans left to
  right without overlaps.
- `PyPath`: `os.path.splitext` on POSIX.
- `FontName`:
  - the style table;
  - the stable longest-first sort;
  - `clean_font_name`, as a specification function and as the loop method;
  - the Consolas branch.
- `Pipeline`:
  - the font-file filter;
  - the two command lines, with parsers that read them back;
  - the two loops and the whole script.

Each `os.system` call is modelled by the command string it receives. A
stage returns those strings in call order. The directory listings are
parameters.

`clean_font_name` is proved for every input of a given shape, not just
for the tested names:

- a name of letters that holds no bare style word;
- optionally, one separated style token (such as `-Bold`, `.bold` or
  `_Italic`), once or twice in a row;
- an extension.

Every such input comes back as the plain name. The concrete cases of
`test_patch.py` are instances of these theorems.

`test_patch.py:17-27` (`test_additional_styles`) disagrees with the code.
It expects `FiraCode-Medium.ttf` to keep its weight. `-Medium`, `-ExtraBold`,
`-ExtraLight`, `-Light` and `-SemiBold` are all in the table of
`patch.py:36-48`, and the loop deletes them. This model follows the code:
`FiraCode-Medium.ttf` gives `FiraCode`.

## Model

| member | source | states |
|---|---|---|
| `PyStr.RemoveFrom` | patch.py:56 | The scan from index `i` returns at most what is left of the string from `i`. |
| `PyStr.RemoveFromSubsequence` | patch.py:56 | The scan only deletes: its result is a subsequence of what it scans. |
| `PyStr.RemoveFromNoOccurrence` | patch.py:56 | Where `t` does not occur, the scan returns what it scans unchanged. |
| `PyStr.RemoveFromShortens` | patch.py:56 | Where a non-empty `t` occurs, the scan returns something strictly shorter. |
| `PyStr.RemoveFromSkip` | patch.py:56 | A stretch with no occurrence of `t` is kept as it is. |
| `PyStr.RemoveAll` | patch.py:56 | `replace(t, '')` returns a subsequence of its input, never longer. An empty `t` changes nothing. For a non-empty `t`, the result equals the input exactly when `t` does not occur, and is strictly shorter when it does. |
| `PyStr.RemoveAllFirst` | patch.py:56 | `replace(t, '')` keeps what precedes the first occurrence of `t`, drops that occurrence, and goes on with `replace` on the rest. So every non-overlapping occurrence is deleted, not only the first. |
| `PyStr.RemoveFromShift` | patch.py:56 | Scanning `s` from `i + j` gives the same result as scanning `s[i..]` from `j`. |
| `PyStr.RemoveAllAt` | patch.py:56 | When `t` occurs exactly once, at `k`, `replace` cuts out exactly that stretch. |
| `PyStr.RemoveAllSuffix` | patch.py:62 | Deleting `t` from `a + t` gives `a` when `a` lacks `t`'s first character. |
| `PyStr.MissingCharNoOccurrence` | patch.py:62 | A string lacking one character of `t` does not contain `t`. |
| `PyStr.Occurs` | patch.py:56 | The occurrence predicate of `replace`'s contract holds only when `t` fits in `s`. |
| `PyStr.OccursIff` | patch.py:56 | The scanning substring test holds exactly when some index starts an occurrence. |
| `PyStr.EndsWith` | patch.py:29 | `endswith` holds exactly when the last `|suffix|` characters are the suffix. |
| `PyPath.SplitExt` | patch.py:33 | `splitext` gives a root and an extension that join back to the path. A non-empty extension is a dot followed by neither dot nor '/'. There is an extension exactly when the last path component has a dot after a non-dot character. |
| `PyPath.Stem` | patch.py:33 | The stem is a prefix of the file name. It is the whole name exactly when the name has no extension. |
| `PyPath.SplitExtPlainName` | patch.py:33 | A plain name plus an extension of one dot splits into exactly those two. |
| `FontName.StyleSuffixesMembers` | patch.py:36-48 | The token list holds exactly the compound, hyphenated, bare, dotted and underscored styles. |
| `FontName.StyleSuffixesNonEmpty` | patch.py:36-48 | There are 49 tokens, none of them empty. |
| `FontName.StyleTokenShape` | patch.py:36-48 | Every bare token is a word of letters. Every other token is one separator ('-', '.', '_') followed by letters. |
| `FontName.SortByLength` | patch.py:51 | The sort returns a permutation of its input, ordered by non-increasing length. |
| `FontName.Insert` | patch.py:51 | One insertion step of the sort returns the list with the new string added, as a permutation. It starts with the new string or with the old first element. |
| `FontName.InsertOrdered` | patch.py:51 | Inserting into a length-ordered list keeps it ordered. |
| `FontName.InsertStable` | patch.py:51 | Inserting keeps, for each length, the relative order of the strings of that length. |
| `FontName.SortByLengthStable` | patch.py:51 | The sort is stable: for every length, strings of that length come out in input order. |
| `FontName.StableSortUnique` | patch.py:51 | Two length-ordered lists with the same strings of each length, in the same order, are equal. So the sort is the one Python's stable `list.sort(key=len, reverse=True)` yields. |
| `FontName.LongerTokenFirst` | patch.py:50-51 | A strictly longer token is tried before a shorter one. |
| `FontName.SortedStyleSuffixesSame` | patch.py:51 | Sorting neither adds nor drops a token. |
| `FontName.StripAll` | patch.py:54-56 | The replace loop returns a subsequence of its input. |
| `FontName.StripAllNoneOccur` | patch.py:54-56 | When no token occurs, the loop returns its input. |
| `FontName.StripAllShortens` | patch.py:54-56 | When some non-empty token occurs, the loop returns something strictly shorter. |
| `FontName.StripAllAppend` | patch.py:54-56 | Running the loop over `a + b` is running it over `a`, then over `b`. |
| `FontName.StripSingleHit` | patch.py:54-56 | Suppose only `t` takes effect: no longer token occurs, and nothing is left afterwards. Then the loop gives `replace(t, '')`. |
| `FontName.CleanedName` | patch.py:31-58 | `clean_font_name` returns a subsequence of the stem, never longer. It may be empty. |
| `FontName.CleanedNameUnchanged` | patch.py:31-58 | The name comes back as the stem if and only if no token occurs in the stem. Matching is case-sensitive and can be anywhere. |
| `FontName.CleanFontName` | patch.py:31-58 | The loop method returns exactly `CleanedName(filename)`, the stripped stem. |
| `FontName.CleanedNameSingleHit` | patch.py:31-58 | A stem in which only one token takes effect is cleaned to that token's `replace`. |
| `FontName.PermutedSingleHit` | patch.py:51-56 | The single-token result holds for any length-ordered permutation of the table, so the in-place sort's tie order does not matter. |
| `FontName.NoTokenInWord` | patch.py:36-48 | A name made of letters that holds no bare style word holds no token at all. |
| `FontName.StemOfRoot` | patch.py:33 | The stem of a plain root plus an extension is the root. |
| `FontName.LongerTokenAbsent` | patch.py:51-56 | No token at least as long as the separated suffix `t`, other than `t`, can occur in `name + t`. |
| `FontName.CleanedPlainName` | patch.py:31-58 | A name of letters with no style word, plus an extension, is cleaned to the name. |
| `FontName.StyledRootPlain` | patch.py:33 | A name of letters plus a separated token has no '/' and no leading dot. |
| `FontName.StyledLongerAbsent` | patch.py:51-56 | No token longer than the separated suffix occurs in `name + suffix`. |
| `FontName.CleanedStyledName` | patch.py:31-58 | A name of letters with no style word, then one separated token, then an extension, is cleaned to the name. |
| `FontName.LongerTokenAbsentTwice` | patch.py:51-56 | No token at least as long as the separated suffix `t`, other than `t`, can occur in `name + t + t`. |
| `FontName.DoubledRootPlain` | patch.py:33 | A name of letters plus a separated token twice has no '/' and no leading dot. |
| `FontName.RemoveDoubledSuffix` | patch.py:56 | `replace(t, '')` deletes both copies of a doubled separated suffix. |
| `FontName.CleanedDoubledStyle` | patch.py:31-58 | A name of letters with no style word, then the same separated token twice, then an extension, is cleaned to the name. |
| `FontName.CleanedStyleWordOnly` | patch.py:31-58 | A file named by a bare style word alone is cleaned to the empty string. |
| `FontName.CleanedFiraCodeBoldTtf` | test_patch.py:7 | `FiraCode-Bold.ttf` gives `FiraCode`. |
| `FontName.CleanedJetBrainsRegularOtf` | test_patch.py:8 | `JetBrains-Regular.otf` gives `JetBrains`. |
| `FontName.CleanedHackItalicTtf` | test_patch.py:9 | `Hack_Italic.ttf` gives `Hack`. |
| `FontName.CleanedSourceCodeboldTtf` | test_patch.py:10 | `SourceCode.bold.ttf` gives `SourceCode`. |
| `FontName.CleanedMonoLisaRegularTtf` | test_patch.py:11 | `MonoLisa-Regular.ttf` gives `MonoLisa`. |
| `FontName.CleanedFiraCodeMediumTtf` | test_patch.py:19 | `FiraCode-Medium.ttf` gives `FiraCode`, as the code does, not the test's expectation. |
| `FontName.CleanedJetBrainsExtraBoldOtf` | test_patch.py:20 | `JetBrains-ExtraBold.otf` gives `JetBrains`. |
| `FontName.CleanedHackExtraLightTtf` | test_patch.py:21 | `Hack-ExtraLight.ttf` gives `Hack`. |
| `FontName.CleanedSourceCodeLightTtf` | test_patch.py:22 | `SourceCode-Light.ttf` gives `SourceCode`. |
| `FontName.CleanedMonoLisaSemiBoldTtf` | test_patch.py:23 | `MonoLisa-SemiBold.ttf` gives `MonoLisa`. |
| `FontName.CleanedFiraCodeTtf` | test_patch.py:31 | `FiraCode.ttf` gives `FiraCode`. |
| `FontName.CleanedJetBrainsOtf` | test_patch.py:32 | `JetBrains.otf` gives `JetBrains`. |
| `FontName.CleanedSimpleFontTtf` | test_patch.py:33 | `SimpleFont.ttf` gives `SimpleFont`. |
| `FontName.CleanedHackboldTtf` | patch.py:31-58 | `Hackbold.ttf` is unchanged: lower-case `bold` without a dot is no token. |
| `FontName.CleanedBoldTtf` | patch.py:31-58 | `Bold.ttf` gives the empty name. |
| `FontName.CleanedFiraBoldBoldTtf` | patch.py:54-56 | `Fira-Bold-Bold.ttf` gives `Fira`: both occurrences of `-Bold` go. |
| `FontName.LegacyOutputName` | patch.py:62 | The replace chain only deletes characters of the file name: its result is a subsequence of it. |
| `FontName.OutputName` | patch.py:61-64 | The output name is a subsequence of the file name. It is `consola` for the four Consolas names and the cleaned name for every other file. |
| `FontName.ChooseOutputName` | patch.py:61-64 | The branch picks the replace chain for the four Consolas names and `clean_font_name` for everything else. |
| `FontName.LegacyConsolazTtf` | patch.py:62 | The replace chain turns `consolaz.ttf` into `consola`. |
| `FontName.LegacyConsolaiTtf` | patch.py:62 | The replace chain turns `consolai.ttf` into `consola`. |
| `FontName.LegacyConsolabTtf` | patch.py:62 | The replace chain turns `consolab.ttf` into `consola`. |
| `FontName.LegacyConsolaTtf` | patch.py:62 | The replace chain turns `consola.ttf` into `consola`. |
| `FontName.LegacyNamesGiveConsola` | patch.py:61-62 | The replace chain turns every one of the four Consolas names into `consola`. |
| `FontName.CleanedConsolabTtf` | patch.py:61-64 | Without the bypass, `consolab.ttf` would keep its style letter. |
| `FontName.CleanedConsolaiTtf` | patch.py:61-64 | Without the bypass, `consolai.ttf` would keep its style letter. |
| `FontName.CleanedConsolazTtf` | patch.py:61-64 | Without the bypass, `consolaz.ttf` would keep its style letter. |
| `Pipeline.IsFontFile` | patch.py:29 | A name is a font file exactly when its last four characters are `.ttf` or `.otf`, compared exactly. |
| `Pipeline.FontFiles` | patch.py:29 | The filter keeps exactly the entries ending in `.ttf` or `.otf`, in listing order (a subsequence). Each is kept as often as it is listed. |
| `Pipeline.FontFilesExactly` | patch.py:29 | A name is a font file of the listing if and only if it is listed and ends in `.ttf` or `.otf`. |
| `Pipeline.FontFileExamples` | patch.py:29 | The suffix test is case-sensitive and needs the dot: `.TTF`, `README.md` and `ttf` are not font files. |
| `Pipeline.QuoteIndexAppend` | patch.py:66-67 | The first '"' after a quote-free file name is right after it. |
| `Pipeline.FramedRoundTrip` | patch.py:66-67 | A quote-free file and output name framed by the fixed parts are read back unchanged. |
| `Pipeline.FramedParsed` | patch.py:66-67 | Whatever reads back is quote-free and is exactly the framed string of what it reads back to. |
| `Pipeline.SuffixedRoundTrip` | patch.py:75 | A quote-free file between a prefix and a '"'-led suffix is read back unchanged. |
| `Pipeline.SuffixedParsed` | patch.py:75 | Whatever reads back is quote-free and rebuilds the command. |
| `Pipeline.LigatureCommand` | patch.py:67 | The stage-one command carries its file and output name. Both are read back when they hold no '"'. |
| `Pipeline.LigatureCommandParsed` | patch.py:66-68 | A command that reads back is the stage-one command of what it reads back to. |
| `Pipeline.PatchCommand` | patch.py:75 | Every stage-two command ends with `--out "../Output/" --complete --makegroups 4`. It carries its file, read back when it holds no '"'. |
| `Pipeline.PatchCommandParsed` | patch.py:74-76 | A command that reads back is the stage-two command of its file. |
| `Pipeline.OutputNameQuoteFree` | patch.py:61-64 | Both branches only delete characters, so a quote-free file name gets a quote-free output name. |
| `Pipeline.Jobs` | patch.py:60-76 | A loop with one `os.system` call per file issues as many commands as there are files, the i-th for the i-th file. |
| `Pipeline.JobsPrefix` | patch.py:60-76 | One more file adds its one command at the end. |
| `Pipeline.LigatureJob` | patch.py:61-67 | The command for one font file reads back to the file and its output name when the file holds no '"'. |
| `Pipeline.LigatureCommands` | patch.py:60-68 | Stage one issues one command per font file, in order. The i-th reads back to the i-th file and its output name. |
| `Pipeline.PatchCommands` | patch.py:73-76 | Stage two issues one command per listed entry, unfiltered, in order. The i-th carries the fixed flags and reads back to the i-th entry. |
| `Pipeline.LigatureStage` | patch.py:60-68 | The loop's commands are exactly `LigatureCommands(fontFiles)`, one per file, in order. |
| `Pipeline.PatchStage` | patch.py:71-76 | The loop's commands are exactly `PatchCommands(files)`, one per entry, in order. |
| `Pipeline.Run` | patch.py:29-76 | The script issues the stage-one commands for the font files of `../Original`, then the stage-two commands for every entry of `../Ligaturized`. |
| `Pipeline.RunStageOne` | patch.py:29-68 | Every stage-one command comes from a listed font file, in listing order. It reads back to that file and its output name. |

## Left out

- Downloading and unpacking `FontPatcher.zip` (patch.py:6-19): network and zip I/O. The status-code assertion goes with it.
- `os.listdir`, `os.chdir` and `os.makedirs` (patch.py:22-26, 29, 70-72): the listings are parameters, and directory changes and creation have no counterpart. The listing of `Original` at patch.py:22 is never used by the script.
- `os.system` (patch.py:66-68, 74-76): its exit status and the effects of fontforge are not modelled. In particular, the listing of `../Ligaturized` is not derived from stage one's output.
- Shell quoting: the commands interpolate names between '"' without escaping. The read-back clauses of `LigatureCommand` and `PatchCommand` therefore hold only for names free of '"'. What a shell does with other metacharacters is not modelled.
- PyPath.SplitExt: POSIX `os.path.splitext` only. The Windows variant with '\\' and drive letters is not modelled.
- FontName.CleanedStyledName and FontName.CleanedPlainName: proved for names of ASCII letters. Other inputs are covered only by the general facts (`CleanedName`, `CleanedNameUnchanged`, `StripAll*`), not by an exact result.
- Retries, a worker pool, progress counters, a cache, case-insensitive suffixes, a fallback name for an empty cleaned name, and suffix matching anchored at the end of the stem: none of these is in patch.py, so none is modelled. The cleaned name can be empty (`CleanedBoldTtf`), and matching is case-sensitive and can be anywhere in the stem.
- `test_patch.py:17-27`: its expected values are not the code's behaviour (see above). The model states what the code does.
