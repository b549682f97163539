/**
 The `.autobackup` manifest: each line is a directive. `#` lines are comments, `- path`
 lines name files to neglect, and `+ local ==> media` lines name files or folders to back
 up. The parser appends to two process-wide lists that are never cleared, so the model
 threads those lists through as an explicit state.
 */
module Manifest {
  import opened Wrappers
  import opened WideString

  /** FILE_DATA_DELIM_W, the separator between the local and the media path of a `+` line. */
  const FILE_DATA_DELIM: string := " ==> "

  /** strlen(FILE_DATA_DELIM), the amount the parser skips past the separator. */
  const DELIM_LENGTH: nat := 5

  /** One backup directive: `first` and `second` of the source's pair. */
  datatype Entry = Entry(localFileLoc: string, mediaFileLoc: string)

  /**
   The two static vectors: `filesList` is what getBackupFilesList returns and
   `ignoredFilesList` what getNeglectedFilesList returns.
   */
  datatype Lists = Lists(filesList: seq<Entry>, ignoredFilesList: seq<string>)

  /** The lists when the process starts. */
  const EMPTY: Lists := Lists([], [])

  /** The result of parseFile: either every line was read, or substr threw on a line. */
  datatype ParseOutcome =
    | Parsed(lists: Lists)
    | OutOfRange(lists: Lists, lineIndex: nat)

  predicate IsBackupLine(line: string) {
    |line| > 0 && line[0] == '+'
  }

  predicate IsIgnoreLine(line: string) {
    |line| > 0 && line[0] == '-'
  }

  /** The lines on which line.substr throws std::out_of_range. */
  ghost predicate ThrowsOutOfRange(line: string) {
    || (IsIgnoreLine(line) && |line| < 2)
    || (IsBackupLine(line) && !Contains(line, FILE_DATA_DELIM) && |line| < 4)
  }

  /** `prior` followed by `added`, list by list. */
  function Concat(prior: Lists, added: Lists): Lists {
    Lists(prior.filesList + added.filesList, prior.ignoredFilesList + added.ignoredFilesList)
  }

  /** What one manifest line asks for. */
  datatype Directive =
    | NoDirective
    | Neglect(filepath: string)
    | Backup(entry: Entry)

  /** The switch of parseFile on one line; `None` when substr throws std::out_of_range. */
  function ReadLine(line: string): (r: Option<Directive>)
    ensures !IsBackupLine(line) && !IsIgnoreLine(line) ==> r == Some(NoDirective)
    ensures r.Some? && IsBackupLine(line) ==> r.value.Backup?
    ensures r.Some? && IsIgnoreLine(line) ==> r.value.Neglect?
  {
    if |line| == 0 then Some(NoDirective)
    else if line[0] == '#' then Some(NoDirective)
    else if line[0] == '-' then
      var neglected :- SubstrToEnd(line, 2);
      Some(Neglect(neglected))
    else if line[0] == '+' then
      var splitPos := match Find(line, FILE_DATA_DELIM) case Some(p) => p case None => NPOS;
      var localFileLoc :- Substr(line, 2, SizeSub(splitPos, 2));
      var mediaFileLoc :- Substr(line, SizeAdd(splitPos, DELIM_LENGTH), SizeSub(|line|, splitPos));
      Some(Backup(Entry(localFileLoc, mediaFileLoc)))
    else
      // the switch has no default: any other first character is dropped
      Some(NoDirective)
  }

  /** push_back onto the static vector the directive belongs to. */
  function Apply(st: Lists, d: Directive): (r: Lists)
    ensures st.filesList <= r.filesList && st.ignoredFilesList <= r.ignoredFilesList
    ensures |r.filesList| == |st.filesList| + (if d.Backup? then 1 else 0)
    ensures |r.ignoredFilesList| == |st.ignoredFilesList| + (if d.Neglect? then 1 else 0)
    ensures d.Backup? ==> |r.filesList| > 0 && r.filesList[|r.filesList| - 1] == d.entry
    ensures d.Neglect? ==> |r.ignoredFilesList| > 0 && r.ignoredFilesList[|r.ignoredFilesList| - 1] == d.filepath
  {
    match d
    case NoDirective => st
    case Neglect(p) => st.(ignoredFilesList := st.ignoredFilesList + [p])
    case Backup(e) => st.(filesList := st.filesList + [e])
  }

  /** parseFile: the lines in order, stopping at the first line on which substr throws. */
  function ParseLines(st: Lists, lines: seq<string>): (r: ParseOutcome)
    decreases |lines|
    ensures |st.filesList| <= |r.lists.filesList| && r.lists.filesList[..|st.filesList|] == st.filesList
    ensures |st.ignoredFilesList| <= |r.lists.ignoredFilesList|
         && r.lists.ignoredFilesList[..|st.ignoredFilesList|] == st.ignoredFilesList
    ensures r.OutOfRange? ==> r.lineIndex < |lines|
  {
    if |lines| == 0 then Parsed(st)
    else match ReadLine(lines[0])
      case None => OutOfRange(st, 0)
      case Some(d) =>
        match ParseLines(Apply(st, d), lines[1..])
        case Parsed(l) => Parsed(l)
        case OutOfRange(l, k) => OutOfRange(l, k + 1)
  }

  function BackupLineCount(lines: seq<string>): nat {
    if |lines| == 0 then 0
    else (if IsBackupLine(lines[0]) then 1 else 0) + BackupLineCount(lines[1..])
  }

  function IgnoreLineCount(lines: seq<string>): nat {
    if |lines| == 0 then 0
    else (if IsIgnoreLine(lines[0]) then 1 else 0) + IgnoreLineCount(lines[1..])
  }

  /** std::find over the neglected list: the index of the first equal element, or the end. */
  function FindNeglected(ignored: seq<string>, filepath: string): (i: nat)
    ensures i <= |ignored|
    ensures i < |ignored| ==> ignored[i] == filepath
    ensures forall j :: 0 <= j < i ==> ignored[j] != filepath
  {
    if |ignored| == 0 then 0
    else if ignored[0] == filepath then 0
    else 1 + FindNeglected(ignored[1..], filepath)
  }

  /** isIgnored: exact string comparison, no case folding and no prefix match. */
  function IsIgnored(st: Lists, filepath: string): (b: bool)
    ensures b <==> filepath in st.ignoredFilesList
  {
    FindNeglected(st.ignoredFilesList, filepath) != |st.ignoredFilesList|
  }

  // ---------------------------------------------------------------------------
  // One line
  // ---------------------------------------------------------------------------

  /** A `-` line appends everything after its second character, whatever that character is. */
  lemma IgnoreLineNeglectsRemainder(line: string)
    requires IsIgnoreLine(line)
    ensures |line| >= 2 ==> ReadLine(line) == Some(Neglect(line[2..]))
    ensures |line| < 2 ==> ReadLine(line) == None
  {
  }

  /** A `+` line whose first separator starts at index p >= 2 splits there, without trimming. */
  lemma BackupLineSplitsAtFirstDelimiter(line: string, p: nat)
    requires |line| < NPOS
    requires IsBackupLine(line) && 2 <= p && IsFirstOccurrence(line, FILE_DATA_DELIM, p)
    ensures ReadLine(line) == Some(Backup(Entry(line[2..p], line[p + DELIM_LENGTH..])))
  {
    assert Find(line, FILE_DATA_DELIM) == Some(p);
  }

  /**
   A `+` line whose separator starts at index 1 ("+ ==> x"): splitPos - 2 wraps to npos,
   so the local path is the whole rest of the line, separator included.
   */
  lemma BackupLineDelimiterAtOne(line: string)
    requires |line| < NPOS
    requires IsBackupLine(line) && IsFirstOccurrence(line, FILE_DATA_DELIM, 1)
    ensures ReadLine(line) == Some(Backup(Entry(line[2..], line[1 + DELIM_LENGTH..])))
  {
    assert Find(line, FILE_DATA_DELIM) == Some(1);
  }

  /**
   A `+` line without the separator: splitPos is npos, npos - 2 takes the rest of the
   line and npos + 5 wraps to 4, so the entry is (line[2..], line[4..]); shorter than
   four characters, the second substr throws.
   */
  lemma BackupLineWithoutDelimiter(line: string)
    requires |line| < NPOS
    requires IsBackupLine(line) && !Contains(line, FILE_DATA_DELIM)
    ensures |line| >= 4 ==> ReadLine(line) == Some(Backup(Entry(line[2..], line[4..])))
    ensures |line| < 4 ==> ReadLine(line) == None
  {
    assert Find(line, FILE_DATA_DELIM) == None;
  }

  /** A line throws exactly when substr is asked to start past its end. */
  lemma ReadLineFailsIffOutOfRange(line: string)
    requires |line| < NPOS
    ensures ReadLine(line).None? <==> ThrowsOutOfRange(line)
  {
    if IsBackupLine(line) {
      match Find(line, FILE_DATA_DELIM)
      case None =>
        BackupLineWithoutDelimiter(line);
      case Some(p) =>
        assert line[p] == ' ' by { MismatchRulesOutOccurrence(line, FILE_DATA_DELIM, 0, 0); }
        if p == 1 {
          BackupLineDelimiterAtOne(line);
        } else {
          BackupLineSplitsAtFirstDelimiter(line, p);
        }
    }
  }

  /**
   The written form of a directive, "+ " + a + " ==> " + b, reads back as (a, b) when
   `a` has no '>' (which no Windows path has): no separator can then start inside
   "+ " + a, not even one sharing its space with the separator that follows `a`.
   */
  lemma WrittenDirectiveReadsBack(a: string, b: string)
    requires |a| + |b| + 7 < NPOS
    requires '>' !in a
    ensures ReadLine("+ " + a + FILE_DATA_DELIM + b) == Some(Backup(Entry(a, b)))
  {
    var line := "+ " + a + FILE_DATA_DELIM + b;
    var p := 2 + |a|;
    assert line[p .. p + DELIM_LENGTH] == FILE_DATA_DELIM;
    forall j: nat | j < p
      ensures !OccursAt(line, FILE_DATA_DELIM, j)
    {
      if j + 3 < p {
        assert line[j + 3] == a[j + 1];
      } else {
        assert line[j + 3] == FILE_DATA_DELIM[j + 3 - p];
      }
      MismatchRulesOutOccurrence(line, FILE_DATA_DELIM, j, 3);
    }
    BackupLineSplitsAtFirstDelimiter(line, p);
    assert line[2..p] == a;
    assert line[p + DELIM_LENGTH..] == b;
  }

  /**
   Without the '>' condition the pair is not recovered: with a = "p ==>" the separator
   is found one character early, sharing its space with the one written after `a`.
   */
  lemma DirectiveWithArrowInLocalPath()
    ensures ReadLine("+ p ==> ==> b") == Some(Backup(Entry("p", "==> b")))
  {
    var line := "+ p ==> ==> b";
    assert line[3..8] == FILE_DATA_DELIM;
    NoDelimiterBeforeThree(line);
    BackupLineSplitsAtFirstDelimiter(line, 3);
    assert line[2..3] == "p";
    assert line[8..] == "==> b";
  }

  /**
   The split is at the first separator: unless the separator starts at index 1, the
   local path read from a `+` line contains no separator.
   */
  lemma LocalPathHasNoDelimiter(line: string)
    requires |line| < NPOS
    requires IsBackupLine(line) && !OccursAt(line, FILE_DATA_DELIM, 1)
    requires ReadLine(line).Some?
    ensures !Contains(ReadLine(line).value.entry.localFileLoc, FILE_DATA_DELIM)
  {
    match Find(line, FILE_DATA_DELIM)
    case None =>
      BackupLineWithoutDelimiter(line);
      NoOccurrenceInSlice(line, 2, |line|, |line|);
    case Some(p) =>
      assert line[p] == ' ' by { MismatchRulesOutOccurrence(line, FILE_DATA_DELIM, 0, 0); }
      BackupLineSplitsAtFirstDelimiter(line, p);
      NoOccurrenceInSlice(line, 2, p, p);
  }

  // ---------------------------------------------------------------------------
  // A whole manifest
  // ---------------------------------------------------------------------------

  /** The directives of all lines, in line order; `None` if a line throws. */
  function Directives(lines: seq<string>): Option<seq<Directive>>
    decreases |lines|
  {
    if |lines| == 0 then Some([])
    else
      var first :- ReadLine(lines[0]);
      var rest :- Directives(lines[1..]);
      Some([first] + rest)
  }

  /** The directives pushed back one after another. */
  function ApplyAll(st: Lists, ds: seq<Directive>): Lists
    decreases |ds|
  {
    if |ds| == 0 then st else ApplyAll(Apply(st, ds[0]), ds[1..])
  }

  /** A manifest whose lines all read: parseFile pushes back their directives in line order. */
  lemma {:induction false} ParseAppliesDirectivesInOrder(st: Lists, lines: seq<string>)
    decreases |lines|
    ensures ParseLines(st, lines).Parsed? <==> Directives(lines).Some?
    ensures ParseLines(st, lines).Parsed? ==> ParseLines(st, lines).lists == ApplyAll(st, Directives(lines).value)
  {
    if |lines| > 0 {
      match ReadLine(lines[0])
      case None =>
      case Some(d) =>
        ParseAppliesDirectivesInOrder(Apply(st, d), lines[1..]);
        if Directives(lines[1..]).Some? {
          var rest := Directives(lines[1..]).value;
          assert ([d] + rest)[1..] == rest;
        }
    }
  }

  /** `r` with `prior` in front of its lists. */
  function AfterPrior(prior: Lists, r: ParseOutcome): ParseOutcome {
    match r
    case Parsed(l) => Parsed(Concat(prior, l))
    case OutOfRange(l, k) => OutOfRange(Concat(prior, l), k)
  }

  /**
   The parse only ever appends: run on lists that already hold `prior` in front, it
   stops at the same line and leaves `prior` in front of what it would have left.
   This is why a manifest parsed on a later device arrival adds to, and never replaces,
   the directives of earlier ones.
   */
  lemma {:induction false} ParseOnPriorLists(prior: Lists, st: Lists, lines: seq<string>)
    decreases |lines|
    ensures ParseLines(Concat(prior, st), lines) == AfterPrior(prior, ParseLines(st, lines))
  {
    if |lines| > 0 {
      match ReadLine(lines[0])
      case None =>
      case Some(d) =>
        ApplyOnPriorLists(prior, st, d);
        ParseOnPriorLists(prior, Apply(st, d), lines[1..]);
    }
  }

  /** One push_back on lists that hold `prior` in front leaves `prior` in front. */
  lemma ApplyOnPriorLists(prior: Lists, st: Lists, d: Directive)
    ensures Apply(Concat(prior, st), d) == Concat(prior, Apply(st, d))
  {
    match d
    case NoDirective =>
    case Neglect(p) =>
      assert prior.ignoredFilesList + st.ignoredFilesList + [p] == prior.ignoredFilesList + (st.ignoredFilesList + [p]);
    case Backup(e) =>
      assert prior.filesList + st.filesList + [e] == prior.filesList + (st.filesList + [e]);
  }

  /** A successful parse adds one backup entry per `+` line and one neglected path per `-` line. */
  lemma {:induction false} ParseCountsDirectives(st: Lists, lines: seq<string>)
    decreases |lines|
    requires ParseLines(st, lines).Parsed?
    ensures |ParseLines(st, lines).lists.filesList| == |st.filesList| + BackupLineCount(lines)
    ensures |ParseLines(st, lines).lists.ignoredFilesList| == |st.ignoredFilesList| + IgnoreLineCount(lines)
  {
    if |lines| > 0 {
      var d := ReadLine(lines[0]).value;
      ParseCountsDirectives(Apply(st, d), lines[1..]);
    }
  }

  /**
   parseFile stops at the first line on which substr throws: the lists it leaves behind
   are those of the lines before it, which all parsed.
   */
  lemma {:induction false} ParseStopsAtFailingLine(st: Lists, lines: seq<string>)
    decreases |lines|
    requires ParseLines(st, lines).OutOfRange?
    ensures ParseLines(st, lines[..ParseLines(st, lines).lineIndex]) == Parsed(ParseLines(st, lines).lists)
    ensures ReadLine(lines[ParseLines(st, lines).lineIndex]) == None
  {
    match ReadLine(lines[0])
    case None =>
    case Some(d) =>
      ParseStopsAtFailingLine(Apply(st, d), lines[1..]);
      var k := ParseLines(st, lines).lineIndex;
      assert lines[..k][1..] == lines[1..][..k - 1];
  }

  /** One step of the read loop, for lines whose directive is already known. */
  lemma ParseFirstLine(st: Lists, lines: seq<string>, d: Directive)
    requires |lines| > 0 && ReadLine(lines[0]) == Some(d)
    ensures ParseLines(Apply(st, d), lines[1..]).Parsed? ==> ParseLines(st, lines) == ParseLines(Apply(st, d), lines[1..])
  {
  }

  /**
   A manifest mixing a comment, a blank line, one `-` line and one well-formed `+` line
   yields exactly one neglected path and one backup entry.
   */
  lemma MixedManifest(comment: string, neglected: string, local: string, media: string)
    requires |comment| > 0 && comment[0] == '#'
    requires |local| + |media| + 7 < NPOS && '>' !in local
    ensures ParseLines(EMPTY, [comment, "", "- " + neglected, "+ " + local + FILE_DATA_DELIM + media])
         == Parsed(Lists([Entry(local, media)], [neglected]))
  {
    var lines := [comment, "", "- " + neglected, "+ " + local + FILE_DATA_DELIM + media];
    var entry := Entry(local, media);
    WrittenDirectiveReadsBack(local, media);
    IgnoreLineNeglectsRemainder(lines[2]);
    assert lines[2][2..] == neglected;
    assert lines[3..][1..] == [];
    ParseFirstLine(Lists([], [neglected]), lines[3..], Backup(entry));
    assert lines[2..][1..] == lines[3..];
    ParseFirstLine(EMPTY, lines[2..], Neglect(neglected));
    assert lines[1..][1..] == lines[2..];
    ParseFirstLine(EMPTY, lines[1..], NoDirective);
    ParseFirstLine(EMPTY, lines, NoDirective);
  }

  // ---------------------------------------------------------------------------
  // Helpers for the string arguments above
  // ---------------------------------------------------------------------------

  /** One differing character rules out an occurrence. */
  lemma MismatchRulesOutOccurrence(s: string, pat: string, i: nat, k: nat)
    requires k < |pat| && i + k < |s| && s[i + k] != pat[k]
    ensures !OccursAt(s, pat, i)
  {
    if i + |pat| <= |s| {
      assert s[i .. i + |pat|][k] == s[i + k];
    }
  }

  /** No occurrence of the separator in `s` starts before `bound` (nor fits before `hi`), so `s[lo..hi]` has none. */
  lemma NoOccurrenceInSlice(s: string, lo: nat, hi: nat, bound: nat)
    requires lo <= hi <= |s| && hi <= bound
    requires forall j: nat :: j < bound ==> !OccursAt(s, FILE_DATA_DELIM, j)
    ensures !Contains(s[lo..hi], FILE_DATA_DELIM)
  {
    if Contains(s[lo..hi], FILE_DATA_DELIM) {
      var i: nat :| OccursAt(s[lo..hi], FILE_DATA_DELIM, i);
      var n := |FILE_DATA_DELIM|;
      assert i + n <= hi - lo;
      var inSlice, inWhole := s[lo..hi][i .. i + n], s[lo + i .. lo + i + n];
      forall k | 0 <= k < n
        ensures inSlice[k] == inWhole[k]
      {
        assert inSlice[k] == s[lo..hi][i + k] == s[lo + i + k];
      }
      assert inSlice == inWhole;
      assert OccursAt(s, FILE_DATA_DELIM, lo + i);
      assert false;
    }
  }

  /** A `+` line with a non-space third character and a non-'=' fourth has no separator in its first three positions. */
  lemma NoDelimiterBeforeThree(line: string)
    requires |line| >= 4 && line[0] == '+' && line[2] != ' ' && line[2] != '=' && line[3] != '='
    ensures forall j: nat :: j < 3 ==> !OccursAt(line, FILE_DATA_DELIM, j)
  {
    MismatchRulesOutOccurrence(line, FILE_DATA_DELIM, 0, 0);
    MismatchRulesOutOccurrence(line, FILE_DATA_DELIM, 1, 1);
    MismatchRulesOutOccurrence(line, FILE_DATA_DELIM, 2, 0);
  }
}
