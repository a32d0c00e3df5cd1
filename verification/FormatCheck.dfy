/** Checking formatting through the fixed-point cache of `src/formatter`. */
module FormatCheck {
  import opened Common
  import opened StableSort
  import opened Strings

  // `check.rs`, `cache.rs` and the grammar branch of `source.rs`.

  type Style = nat
  type Version = nat

  const SCHEMA_VERSION: nat := 2

  // --- Formatting one file -----------------------------------------------------

  datatype RAnalysis = Analyzed(formatted: string, outdated: seq<Range>) | RFailed(reason: string)

  datatype DcfFormat = Formatted(formatted: string) | Declined | DcfFailed(reason: string)

  /** The two grammars' formatters of one release. */
  datatype Formatter = Formatter(
    r: (string, Style, bool) -> RAnalysis,
    dcf: (string, Style) -> DcfFormat)

  datatype ReadResult = Text(content: string) | NotUtf8 | Unreadable(reason: string)

  /** A discovered file, with the markdown default its package resolves to. */
  datatype SourceFile = SourceFile(path: string, isDescription: bool, markdown: bool, read: ReadResult)

  datatype ChangedFile = ChangedFile(path: string, original: string, formatted: string)
  datatype FailedFile = FailedFile(path: string, reason: string)
  datatype OutdatedDirective = OutdatedDirective(path: string, line: nat, column: nat)

  datatype CheckResult = CheckResult(
    checkedFiles: int,
    changed: seq<ChangedFile>,
    outdated: seq<OutdatedDirective>,
    failed: seq<FailedFile>,
    skipped: seq<string>)

  function Newlines(text: string): nat {
    if |text| == 0 then 0
    else Newlines(text[..|text| - 1]) + (if text[|text| - 1] == '\n' then 1 else 0)
  }

  /** Where the last line of `text` starts. */
  function LineStart(text: string): (start: nat)
    ensures start <= |text|
  {
    if |text| == 0 then 0
    else if text[|text| - 1] == '\n' then |text|
    else LineStart(text[..|text| - 1])
  }

  /** The text before an offset of the formatter's own tree. */
  function Before(content: string, offset: nat): string {
    if offset <= |content| then content[..offset] else content
  }

  function Locate(path: string, content: string, range: Range): OutdatedDirective {
    var prefix := Before(content, range.start);
    OutdatedDirective(path, Newlines(prefix) + 1, |prefix| - LineStart(prefix) + 1)
  }

  function LocateAll(path: string, content: string, ranges: seq<Range>): seq<OutdatedDirective> {
    if |ranges| == 0 then []
    else LocateAll(path, content, ranges[..|ranges| - 1]) + [Locate(path, content, ranges[|ranges| - 1])]
  }

  /** What one file contributes to an uncached run. */
  function CheckOne(fmt: Formatter, style: Style, file: SourceFile): CheckResult {
    var nothing := CheckResult(1, [], [], [], []);
    match file.read
    case NotUtf8 => CheckResult(0, [], [], [], [file.path])
    case Unreadable(reason) => CheckResult(0, [], [], [FailedFile(file.path, "failed to read: " + reason)], [])
    case Text(content) =>
      if file.isDescription then
        match fmt.dcf(content, style)
        case Declined => nothing
        case DcfFailed(reason) => CheckResult(0, [], [], [FailedFile(file.path, "failed to format: " + reason)], [])
        case Formatted(formatted) =>
          if formatted == content then nothing
          else nothing.(changed := [ChangedFile(file.path, content, formatted)])
      else
        match fmt.r(content, style, file.markdown)
        case RFailed(reason) => CheckResult(0, [], [], [FailedFile(file.path, "failed to format: " + reason)], [])
        case Analyzed(formatted, outdated) =>
          CheckResult(1,
            if formatted == content then [] else [ChangedFile(file.path, content, formatted)],
            LocateAll(file.path, content, outdated), [], [])
  }

  function Both(a: CheckResult, b: CheckResult): CheckResult {
    CheckResult(a.checkedFiles + b.checkedFiles,
      a.changed + b.changed, a.outdated + b.outdated, a.failed + b.failed, a.skipped + b.skipped)
  }

  /** A run without a cache: every file on its own, in order. */
  function Uncached(fmt: Formatter, style: Style, files: seq<SourceFile>): CheckResult {
    if |files| == 0 then CheckResult(0, [], [], [], [])
    else
      Both(Uncached(fmt, style, files[..|files| - 1]), CheckOne(fmt, style, files[|files| - 1]))
  }

  // --- What a report says ----------------------------------------------------------

  /** The file's text is `c.original`, and its grammar's formatter turns it into another text, `c.formatted`. */
  predicate IsChanged(fmt: Formatter, style: Style, file: SourceFile, c: ChangedFile) {
    && c.path == file.path && file.read == Text(c.original) && c.formatted != c.original
    && if file.isDescription then fmt.dcf(c.original, style) == Formatted(c.formatted)
       else
         var analysis := fmt.r(c.original, style, file.markdown);
         analysis.Analyzed? && analysis.formatted == c.formatted
  }

  /** The file cannot be read, or its grammar's formatter fails on its text. */
  predicate IsFailed(fmt: Formatter, style: Style, file: SourceFile, f: FailedFile) {
    && f.path == file.path
    && match file.read
       case Unreadable(reason) => f.reason == "failed to read: " + reason
       case NotUtf8 => false
       case Text(content) =>
         if file.isDescription then
           fmt.dcf(content, style).DcfFailed? && f.reason == "failed to format: " + fmt.dcf(content, style).reason
         else
           var analysis := fmt.r(content, style, file.markdown);
           analysis.RFailed? && f.reason == "failed to format: " + analysis.reason
  }

  predicate IsSkipped(file: SourceFile, path: string) {
    path == file.path && file.read == NotUtf8
  }

  /** The file is R, and the formatter finds a directive in its text outdated, starting at this line and column. */
  ghost predicate IsOutdated(fmt: Formatter, style: Style, file: SourceFile, o: OutdatedDirective) {
    && o.path == file.path && file.read.Text? && !file.isDescription
    && var content := file.read.content;
       var analysis := fmt.r(content, style, file.markdown);
       && analysis.Analyzed?
       && exists range :: range in analysis.outdated && IsAt(content, range.start, o.line, o.column)
  }

  ghost predicate IsAt(content: string, offset: nat, line: nat, column: nat) {
    IsAfter(content[..if offset <= |content| then offset else |content|], line, column)
  }

  /** On the line one more than the newlines of `prefix`, as many columns into what follows the last of them. */
  ghost predicate IsAfter(prefix: string, line: nat, column: nat) {
    && line == multiset(prefix)['\n'] + 1
    && exists start: nat :: StartsLastLine(prefix, start) && column == |prefix| - start + 1
  }

  predicate StartsLastLine(prefix: string, start: nat) {
    start <= |prefix| && (start == 0 || prefix[start - 1] == '\n') && '\n' !in prefix[start..]
  }

  /** Nothing is left out of the report, and nothing else is in it; every file is counted once. */
  ghost predicate Reports(fmt: Formatter, style: Style, files: seq<SourceFile>, result: CheckResult) {
    && (forall c :: c in result.changed <==> exists file :: file in files && IsChanged(fmt, style, file, c))
    && (forall f :: f in result.failed <==> exists file :: file in files && IsFailed(fmt, style, file, f))
    && (forall p :: p in result.skipped <==> exists file :: file in files && IsSkipped(file, p))
    && (forall o :: o in result.outdated <==> exists file :: file in files && IsOutdated(fmt, style, file, o))
    && result.checkedFiles + |result.failed| + |result.skipped| == |files|
  }

  lemma {:induction false} NewlinesAreCounted(text: string)
    ensures Newlines(text) == multiset(text)['\n']
  {
    if |text| > 0 {
      NewlinesAreCounted(text[..|text| - 1]);
      assert text == text[..|text| - 1] + [text[|text| - 1]];
    }
  }

  lemma {:induction false} LineStartIsLast(text: string, start: nat)
    ensures StartsLastLine(text, start) <==> start == LineStart(text)
  {
    if |text| > 0 {
      var init, last := text[..|text| - 1], text[|text| - 1];
      LineStartIsLast(init, start);
      if start <= |init| {
        assert text[start..] == init[start..] + [last];
        assert start > 0 ==> text[start - 1] == init[start - 1];
      }
    }
  }

  lemma LocatedIsAt(path: string, content: string, range: Range, o: OutdatedDirective)
    ensures o == Locate(path, content, range)
       <==> o.path == path && IsAt(content, range.start, o.line, o.column)
  {
    var prefix := Before(content, range.start);
    NewlinesAreCounted(prefix);
    forall start: nat ensures StartsLastLine(prefix, start) <==> start == LineStart(prefix) {
      LineStartIsLast(prefix, start);
    }
    assert StartsLastLine(prefix, LineStart(prefix));
    assert o == Locate(path, content, range) <==> o.path == path && IsAfter(prefix, o.line, o.column);
    assert prefix == content[..if range.start <= |content| then range.start else |content|];
  }

  lemma {:induction false} LocatedAre(path: string, content: string, ranges: seq<Range>, o: OutdatedDirective)
    ensures o in LocateAll(path, content, ranges) <==>
      exists range :: range in ranges && o.path == path && IsAt(content, range.start, o.line, o.column)
  {
    if |ranges| > 0 {
      var init, last := ranges[..|ranges| - 1], ranges[|ranges| - 1];
      assert ranges == init + [last];
      LocatedAre(path, content, init, o);
      LocatedIsAt(path, content, last, o);
    }
  }

  lemma OneReportsOutdated(fmt: Formatter, style: Style, file: SourceFile, o: OutdatedDirective)
    ensures o in CheckOne(fmt, style, file).outdated <==> IsOutdated(fmt, style, file, o)
  {
    if file.read.Text? && !file.isDescription && fmt.r(file.read.content, style, file.markdown).Analyzed? {
      LocatedAre(file.path, file.read.content, fmt.r(file.read.content, style, file.markdown).outdated, o);
    }
  }

  lemma OneReportsTheRest(fmt: Formatter, style: Style, file: SourceFile)
    ensures var one := CheckOne(fmt, style, file);
      && (forall c :: c in one.changed <==> IsChanged(fmt, style, file, c))
      && (forall f :: f in one.failed <==> IsFailed(fmt, style, file, f))
      && (forall p :: p in one.skipped <==> IsSkipped(file, p))
      && one.checkedFiles + |one.failed| + |one.skipped| == 1
  {
  }

  lemma OneReports(fmt: Formatter, style: Style, file: SourceFile)
    ensures Reports(fmt, style, [file], CheckOne(fmt, style, file))
  {
    OneReportsTheRest(fmt, style, file);
    forall o ensures o in CheckOne(fmt, style, file).outdated <==> IsOutdated(fmt, style, file, o) {
      OneReportsOutdated(fmt, style, file, o);
    }
    assert forall f :: f in [file] <==> f == file;
    assert file in [file];
  }

  lemma ReportsJoin(
      fmt: Formatter, style: Style, a: seq<SourceFile>, b: seq<SourceFile>, ra: CheckResult, rb: CheckResult)
    requires Reports(fmt, style, a, ra) && Reports(fmt, style, b, rb)
    ensures Reports(fmt, style, a + b, Both(ra, rb))
  {
  }

  /** A run reports exactly what is to be said about its files. */
  lemma {:induction false} UncachedReports(fmt: Formatter, style: Style, files: seq<SourceFile>)
    ensures Reports(fmt, style, files, Uncached(fmt, style, files))
  {
    if |files| > 0 {
      var init, last := files[..|files| - 1], files[|files| - 1];
      assert files == init + [last];
      UncachedReports(fmt, style, init);
      OneReports(fmt, style, last);
      ReportsJoin(fmt, style, init, [last], Uncached(fmt, style, init), CheckOne(fmt, style, last));
    }
  }

  // --- Cache keys ----------------------------------------------------------------

  datatype Grammar = RGrammar | DcfGrammar

  /** The key itself stands for its hash: two keys never collide. */
  datatype CacheKey = CacheKey(grammar: Grammar, content: string, markdown: bool)

  /** The key takes the formatter's own grammar branch. */
  function KeyOf(file: SourceFile, content: string): CacheKey {
    if file.isDescription then CacheKey(DcfGrammar, content, false)
    else CacheKey(RGrammar, content, file.markdown)
  }

  /** The content formats to itself and no directive in it is outdated. */
  predicate IsClean(fmt: Formatter, style: Style, key: CacheKey) {
    match key.grammar
    case RGrammar => fmt.r(key.content, style, key.markdown) == Analyzed(key.content, [])
    case DcfGrammar => fmt.dcf(key.content, style) == Formatted(key.content)
  }

  ghost predicate Sound(fmt: Formatter, style: Style, points: set<CacheKey>) {
    forall key :: key in points ==> IsClean(fmt, style, key)
  }

  /** A clean key says exactly that its file has nothing to report. */
  lemma CleanIffNothingToReport(fmt: Formatter, style: Style, file: SourceFile, content: string)
    requires file.read == Text(content)
    ensures IsClean(fmt, style, KeyOf(file, content)) ==> CheckOne(fmt, style, file) == CheckResult(1, [], [], [], [])
    ensures CheckOne(fmt, style, file) == CheckResult(1, [], [], [], []) ==>
              IsClean(fmt, style, KeyOf(file, content)) || (file.isDescription && fmt.dcf(content, style) == Declined)
  {
    if !file.isDescription {
      match fmt.r(content, style, file.markdown) {
        case Analyzed(_, outdated) =>
          assert |LocateAll(file.path, content, outdated)| == |outdated| by {
            LocateAllLength(file.path, content, outdated);
          }
        case RFailed(_) =>
      }
    }
  }

  lemma {:induction false} LocateAllLength(path: string, content: string, ranges: seq<Range>)
    ensures |LocateAll(path, content, ranges)| == |ranges|
  {
    if |ranges| > 0 {
      LocateAllLength(path, content, ranges[..|ranges| - 1]);
    }
  }

  /** What one file contributes when `points` are known to be clean: a hit reports nothing. */
  function Verdict(fmt: Formatter, style: Style, points: set<CacheKey>, file: SourceFile): CheckResult {
    if file.read.Text? && KeyOf(file, file.read.content) in points then CheckResult(1, [], [], [], [])
    else CheckOne(fmt, style, file)
  }

  /** What is known to be clean makes no difference to the verdict, as long as it is. */
  lemma VerdictIsUncached(fmt: Formatter, style: Style, points: set<CacheKey>, file: SourceFile)
    requires Sound(fmt, style, points)
    ensures Verdict(fmt, style, points, file) == CheckOne(fmt, style, file)
  {
    if file.read.Text? {
      CleanIffNothingToReport(fmt, style, file, file.read.content);
    }
  }

  /** What the cache knows after one more file. */
  function Learn(fmt: Formatter, style: Style, points: set<CacheKey>, file: SourceFile): set<CacheKey> {
    match file.read
    case Text(content) =>
      if IsClean(fmt, style, KeyOf(file, content)) then points + {KeyOf(file, content)} else points
    case _ => points
  }

  function LearnAll(fmt: Formatter, style: Style, points: set<CacheKey>, files: seq<SourceFile>): set<CacheKey> {
    if |files| == 0 then points
    else Learn(fmt, style, LearnAll(fmt, style, points, files[..|files| - 1]), files[|files| - 1])
  }

  /** What a run adds to what was known: the keys of the files whose text is clean. */
  lemma {:induction false} LearnedAreClean(
      fmt: Formatter, style: Style, points: set<CacheKey>, files: seq<SourceFile>, key: CacheKey)
    ensures key in LearnAll(fmt, style, points, files) <==>
      || key in points
      || exists file :: file in files && file.read.Text? && key == KeyOf(file, file.read.content)
           && CheckOne(fmt, style, file) == CheckResult(1, [], [], [], [])
           && !(file.isDescription && fmt.dcf(file.read.content, style) == Declined)
  {
    if |files| > 0 {
      var init, last := files[..|files| - 1], files[|files| - 1];
      assert files == init + [last];
      LearnedAreClean(fmt, style, points, init, key);
      if last.read.Text? {
        CleanIffNothingToReport(fmt, style, last, last.read.content);
      }
    }
  }

  // --- The cache object and the disk under it --------------------------------------

  /** `{root}/format/{version}/{style}`. */
  datatype Slot = Slot(version: Version, style: Style)

  datatype CacheFile = Encoded(schema: nat, points: set<CacheKey>) | Garbage

  function LoadedPoints(disk: map<Slot, CacheFile>, slot: Slot): set<CacheKey> {
    if slot in disk && disk[slot].Encoded? && disk[slot].schema == SCHEMA_VERSION then disk[slot].points else {}
  }

  /** The disk after a store: the slot is replaced whole, other releases' slots are collected. */
  function Stored(disk: map<Slot, CacheFile>, slot: Slot, points: set<CacheKey>): map<Slot, CacheFile> {
    map s | s in disk.Keys + {slot} && s.version == slot.version ::
      if s == slot then Encoded(SCHEMA_VERSION, points) else disk[s]
  }

  /** What is stored is loaded again from its own slot; other styles of the release stay, other releases go. */
  lemma StoredIsLoaded(disk: map<Slot, CacheFile>, slot: Slot, points: set<CacheKey>, other: Slot)
    ensures LoadedPoints(Stored(disk, slot, points), slot) == points
    ensures other != slot ==>
      LoadedPoints(Stored(disk, slot, points), other)
        == if other.version == slot.version then LoadedPoints(disk, other) else {}
    ensures other in Stored(disk, slot, points) ==> other.version == slot.version
  {
  }

  /** A file of another schema, or none, or a damaged one, holds nothing. */
  lemma LoadedAreCurrent(disk: map<Slot, CacheFile>, slot: Slot, key: CacheKey)
    ensures key in LoadedPoints(disk, slot) <==>
      exists points :: slot in disk && disk[slot] == Encoded(2, points) && key in points
  {
  }

  class Disk {
    var files: map<Slot, CacheFile>

    constructor ()
      ensures files == map[]
    {
      files := map[];
    }
  }

  class FormatCache {
    const slot: Slot
    var fixedPoints: set<CacheKey>
    var dirty: bool

    /** Missing, stale or undecodable files load as an empty cache. */
    constructor Load(disk: Disk, slot: Slot)
      ensures this.slot == slot && fixedPoints == LoadedPoints(disk.files, slot) && !dirty
    {
      this.slot := slot;
      fixedPoints := LoadedPoints(disk.files, slot);
      dirty := false;
    }

    predicate IsFixedPoint(key: CacheKey)
      reads this
    {
      key in fixedPoints
    }

    method RecordFixedPoint(key: CacheKey)
      modifies this
      ensures fixedPoints == old(fixedPoints) + {key}
      ensures dirty <==> old(dirty) || key !in old(fixedPoints)
    {
      if key !in fixedPoints {
        fixedPoints := fixedPoints + {key};
        dirty := true;
      }
    }

    method Store(disk: Disk)
      modifies disk
      ensures disk.files == if dirty then Stored(old(disk.files), slot, fixedPoints) else old(disk.files)
    {
      if dirty {
        disk.files := Stored(disk.files, slot, fixedPoints);
      }
    }
  }

  // --- The run -----------------------------------------------------------------------

  datatype CheckError = MissingPaths | NoFiles | Discovery(message: string)

  predicate PathLe(a: SourceFile, b: SourceFile) {
    TextLe(a.path, b.path)
  }

  lemma PathLeIsPreorder()
    ensures TotalPreorder(PathLe)
  {
    forall a, b ensures PathLe(a, b) || PathLe(b, a) {
      TextLeIsTotal(a.path, b.path);
    }
    forall a, b, c | PathLe(a, b) && PathLe(b, c) ensures PathLe(a, c) {
      TextLeIsTransitive(a.path, b.path, c.path);
    }
  }

  /** Both grammars' files as one work list in path order. */
  function Merge(r: seq<SourceFile>, description: seq<SourceFile>): seq<SourceFile> {
    Sort(PathLe, r + description)
  }

  lemma MergeIsPathOrder(r: seq<SourceFile>, description: seq<SourceFile>)
    ensures StablySorted(PathLe, r + description, Merge(r, description))
    ensures multiset(Merge(r, description)) == multiset(r) + multiset(description)
  {
    PathLeIsPreorder();
    SortIsStable(PathLe, r + description);
  }

  /** Each list of a report goes by path. */
  ghost predicate InPathOrder(result: CheckResult) {
    && (forall i, j :: 0 <= i < j < |result.changed| ==> TextLe(result.changed[i].path, result.changed[j].path))
    && (forall i, j :: 0 <= i < j < |result.outdated| ==> TextLe(result.outdated[i].path, result.outdated[j].path))
    && (forall i, j :: 0 <= i < j < |result.failed| ==> TextLe(result.failed[i].path, result.failed[j].path))
    && (forall i, j :: 0 <= i < j < |result.skipped| ==> TextLe(result.skipped[i], result.skipped[j]))
  }

  /** Every entry of the report is for a path up to this one. */
  ghost predicate UpTo(result: CheckResult, path: string) {
    && (forall c :: c in result.changed ==> TextLe(c.path, path))
    && (forall o :: o in result.outdated ==> TextLe(o.path, path))
    && (forall f :: f in result.failed ==> TextLe(f.path, path))
    && (forall p :: p in result.skipped ==> TextLe(p, path))
  }

  ghost predicate AllFor(result: CheckResult, path: string) {
    && (forall c :: c in result.changed ==> c.path == path)
    && (forall o :: o in result.outdated ==> o.path == path)
    && (forall f :: f in result.failed ==> f.path == path)
    && (forall p :: p in result.skipped ==> p == path)
  }

  lemma JoinInOrder(a: CheckResult, b: CheckResult, path: string)
    requires InPathOrder(a) && UpTo(a, path) && AllFor(b, path)
    ensures InPathOrder(Both(a, b))
  {
    TextLeIsTotal(path, path);
    var skipped := a.skipped + b.skipped;
    forall i, j | 0 <= i < j < |skipped| ensures TextLe(skipped[i], skipped[j]) {
      if j >= |a.skipped| {
        assert skipped[j] == b.skipped[j - |a.skipped|] && b.skipped[j - |a.skipped|] in b.skipped;
        assert skipped[i] in a.skipped || skipped[i] in b.skipped;
      }
    }
  }

  lemma OneIsForItsPath(fmt: Formatter, style: Style, file: SourceFile)
    ensures AllFor(CheckOne(fmt, style, file), file.path)
  {
    OneReportsTheRest(fmt, style, file);
    forall o | o in CheckOne(fmt, style, file).outdated ensures o.path == file.path {
      OneReportsOutdated(fmt, style, file, o);
    }
  }

  lemma ReportsUpTo(fmt: Formatter, style: Style, files: seq<SourceFile>, result: CheckResult, path: string)
    requires Reports(fmt, style, files, result) && forall file :: file in files ==> TextLe(file.path, path)
    ensures UpTo(result, path)
  {
  }

  lemma {:induction false} ReportIsInPathOrder(fmt: Formatter, style: Style, files: seq<SourceFile>)
    requires Sorted(PathLe, files)
    ensures InPathOrder(Uncached(fmt, style, files))
  {
    if |files| > 0 {
      var init, last := files[..|files| - 1], files[|files| - 1];
      ReportIsInPathOrder(fmt, style, init);
      UncachedReports(fmt, style, init);
      assert forall file :: file in init ==> PathLe(file, last);
      ReportsUpTo(fmt, style, init, Uncached(fmt, style, init), last.path);
      OneIsForItsPath(fmt, style, last);
      JoinInOrder(Uncached(fmt, style, init), CheckOne(fmt, style, last), last.path);
    }
  }

  /** The report on the merged work list is one on all that was discovered, in path order. */
  lemma MergedReport(fmt: Formatter, style: Style, r: seq<SourceFile>, description: seq<SourceFile>)
    ensures var result := Uncached(fmt, style, Merge(r, description));
      Reports(fmt, style, r + description, result) && InPathOrder(result)
  {
    var files := Merge(r, description);
    MergeIsPathOrder(r, description);
    ReportIsInPathOrder(fmt, style, files);
    UncachedReports(fmt, style, files);
    assert multiset(files) == multiset(r + description);
    forall file ensures file in files <==> file in r + description {
      assert file in files <==> file in multiset(files);
      assert file in r + description <==> file in multiset(r + description);
    }
    assert |files| == |multiset(files)| == |multiset(r + description)| == |r + description|;
  }

  /**
   * A run over the discovered files, with or without a cache. With a sound
   * cache the result is that of the uncached run, and the cache stays sound.
   */
  method CheckPaths(
      fmt: Formatter, style: Style, noPaths: bool,
      discovered: Result<(seq<SourceFile>, seq<SourceFile>), string>, force: bool,
      cache: FormatCache?, disk: Disk)
    returns (result: Result<CheckResult, CheckError>)
    requires cache != null ==> cache.slot.style == style && Sound(fmt, style, cache.fixedPoints)
    modifies cache, disk
    ensures cache == null || !cache.dirty ==> disk.files == old(disk.files)
    ensures noPaths || discovered.Err? || Merge(discovered.value.0, discovered.value.1) == [] ==>
      && disk.files == old(disk.files)
      && (cache != null ==> cache.fixedPoints == old(cache.fixedPoints) && cache.dirty == old(cache.dirty))
    ensures cache != null ==> (cache.dirty <==> old(cache.dirty) || cache.fixedPoints != old(cache.fixedPoints))
    ensures noPaths ==> result == Err(MissingPaths)
    ensures !noPaths && discovered.Err? ==> result == Err(Discovery(discovered.error))
    ensures result.Ok? ==>
      && discovered.Ok? && InPathOrder(result.value)
      && Reports(fmt, style, discovered.value.0 + discovered.value.1, result.value)
    ensures !noPaths && discovered.Ok? ==>
      var files := Merge(discovered.value.0, discovered.value.1);
      && result == (if files == [] && !force then Err(NoFiles) else Ok(Uncached(fmt, style, files)))
      && (cache != null ==>
            && cache.fixedPoints == LearnAll(fmt, style, old(cache.fixedPoints), files)
            && Sound(fmt, style, cache.fixedPoints)
            && (files != [] && cache.dirty ==>
                  disk.files == Stored(old(disk.files), cache.slot, cache.fixedPoints)))
  {
    if noPaths {
      return Err(MissingPaths);
    }
    if discovered.Err? {
      return Err(Discovery(discovered.error));
    }
    var files := Merge(discovered.value.0, discovered.value.1);
    MergedReport(fmt, style, discovered.value.0, discovered.value.1);
    if |files| == 0 {
      if force {
        return Ok(CheckResult(0, [], [], [], []));
      }
      return Err(NoFiles);
    }
    var checked := CheckFiles(fmt, style, files, cache);
    if cache != null {
      cache.Store(disk);
    }
    result := Ok(checked);
  }

  method CheckFiles(fmt: Formatter, style: Style, files: seq<SourceFile>, cache: FormatCache?)
    returns (result: CheckResult)
    requires cache != null ==> Sound(fmt, style, cache.fixedPoints)
    modifies cache
    ensures result == Uncached(fmt, style, files)
    ensures cache != null ==>
      && cache.fixedPoints == LearnAll(fmt, style, old(cache.fixedPoints), files)
      && Sound(fmt, style, cache.fixedPoints)
      && Grown(old(cache.fixedPoints), old(cache.dirty), cache.fixedPoints, cache.dirty)
  {
    result := CheckResult(|files|, [], [], [], []);
    for i := 0 to |files|
      invariant result.(checkedFiles := i - |result.failed| - |result.skipped|)
             == Uncached(fmt, style, files[..i])
      invariant cache != null ==>
        && cache.fixedPoints == LearnAll(fmt, style, old(cache.fixedPoints), files[..i])
        && Sound(fmt, style, cache.fixedPoints)
        && Grown(old(cache.fixedPoints), old(cache.dirty), cache.fixedPoints, cache.dirty)
    {
      assert files[..i + 1][..i] == files[..i];
      ghost var points := if cache != null then cache.fixedPoints else {};
      VerdictIsUncached(fmt, style, points, files[i]);
      var one := CheckFile(fmt, style, files[i], cache);
      result := CheckResult(|files|,
        result.changed + one.changed,
        result.outdated + one.outdated,
        result.failed + one.failed,
        result.skipped + one.skipped);
    }
    assert files[..|files|] == files;
    result := result.(checkedFiles := |files| - |result.failed| - |result.skipped|);
  }

  /** Nothing is forgotten, and something is dirty exactly when it was or when something was learned. */
  ghost predicate Grown(before: set<CacheKey>, wasDirty: bool, after: set<CacheKey>, isDirty: bool) {
    before <= after && (isDirty <==> wasDirty || after != before)
  }

  /** The loop body: what one file adds to the lists and to the cache. */
  method CheckFile(fmt: Formatter, style: Style, file: SourceFile, cache: FormatCache?)
    returns (one: CheckResult)
    requires cache != null ==> Sound(fmt, style, cache.fixedPoints)
    modifies cache
    ensures one == Verdict(fmt, style, if cache != null then old(cache.fixedPoints) else {}, file)
    ensures one.checkedFiles == 1 - |one.failed| - |one.skipped|
    ensures cache != null ==>
      && cache.fixedPoints == Learn(fmt, style, old(cache.fixedPoints), file)
      && Sound(fmt, style, cache.fixedPoints)
      && Grown(old(cache.fixedPoints), old(cache.dirty), cache.fixedPoints, cache.dirty)
  {
    match file.read {
      case NotUtf8 => return CheckResult(0, [], [], [], [file.path]);
      case Unreadable(reason) =>
        return CheckResult(0, [], [], [FailedFile(file.path, "failed to read: " + reason)], []);
      case Text(_) =>
    }
    var content := file.read.content;
    CleanIffNothingToReport(fmt, style, file, content);
    if cache != null && cache.IsFixedPoint(KeyOf(file, content)) {
      return CheckResult(1, [], [], [], []);
    }
    var formatted: string, ranges: seq<Range> := content, [];
    if file.isDescription {
      match fmt.dcf(content, style) {
        case Formatted(text) => formatted := text;
        case Declined => return CheckResult(1, [], [], [], []);
        case DcfFailed(reason) =>
          return CheckResult(0, [], [], [FailedFile(file.path, "failed to format: " + reason)], []);
      }
    } else {
      match fmt.r(content, style, file.markdown) {
        case Analyzed(text, found) => formatted, ranges := text, found;
        case RFailed(reason) =>
          return CheckResult(0, [], [], [FailedFile(file.path, "failed to format: " + reason)], []);
      }
    }
    var changed: seq<ChangedFile> := [];
    if formatted != content {
      changed := [ChangedFile(file.path, content, formatted)];
    } else if |ranges| == 0 && cache != null {
      cache.RecordFixedPoint(KeyOf(file, content));
    }
    one := CheckResult(1, changed, LocateAll(file.path, content, ranges), [], []);
  }

  // --- Any history of runs -------------------------------------------------------------

  /**
   * A running check: the release and style it works for, what its cache holds,
   * the files it has been through and what it has to report on them.
   */
  datatype Process = Process(
    slot: Slot, points: set<CacheKey>, dirty: bool, files: seq<SourceFile>, result: CheckResult)

  datatype World = World(disk: map<Slot, CacheFile>, processes: map<nat, Process>)

  datatype Action =
    | Start(pid: nat, slot: Slot)
    | CheckFile(pid: nat, file: SourceFile)
    | Persist(pid: nat)
    | Damage(slot: Slot)
    | Outdate(slot: Slot, schema: nat, points: set<CacheKey>)

  predicate Possible(w: World, a: Action) {
    match a
    case Start(pid, _) => pid !in w.processes
    case CheckFile(pid, _) => pid in w.processes
    case Persist(pid) => pid in w.processes
    case Damage(_) => true
    case Outdate(_, schema, _) => schema != SCHEMA_VERSION
  }

  function Next(releases: Version -> Formatter, w: World, a: Action): World
    requires Possible(w, a)
  {
    match a
    case Start(pid, slot) =>
      w.(processes := w.processes[pid := Process(slot, LoadedPoints(w.disk, slot), false, [], CheckResult(0, [], [], [], []))])
    case CheckFile(pid, file) =>
      var p := w.processes[pid];
      var fmt, style := releases(p.slot.version), p.slot.style;
      var points := Learn(fmt, style, p.points, file);
      var result := Both(p.result, Verdict(fmt, style, p.points, file));
      w.(processes := w.processes[pid := Process(p.slot, points, p.dirty || points != p.points, p.files + [file], result)])
    case Persist(pid) =>
      var p := w.processes[pid];
      if p.dirty then w.(disk := Stored(w.disk, p.slot, p.points)) else w
    case Damage(slot) => w.(disk := w.disk[slot := Garbage])
    case Outdate(slot, schema, points) => w.(disk := w.disk[slot := Encoded(schema, points)])
  }

  function Run(releases: Version -> Formatter, actions: seq<Action>): Option<World>
    decreases |actions|
  {
    if |actions| == 0 then Some(World(map[], map[]))
    else
      var last := actions[|actions| - 1];
      match Run(releases, actions[..|actions| - 1])
      case Some(w) => if Possible(w, last) then Some(Next(releases, w, last)) else None
      case None => None
  }

  /** A check knows only clean contents, and reports so far what an uncached run would. */
  ghost predicate ProcessSound(fmt: Formatter, p: Process) {
    Sound(fmt, p.slot.style, p.points) && p.result == Uncached(fmt, p.slot.style, p.files)
  }

  ghost predicate WorldSound(releases: Version -> Formatter, w: World) {
    && (forall slot :: slot in w.disk ==> Sound(releases(slot.version), slot.style, LoadedPoints(w.disk, slot)))
    && (forall pid :: pid in w.processes ==>
          ProcessSound(releases(w.processes[pid].slot.version), w.processes[pid]))
  }

  lemma NextKeepsSoundness(releases: Version -> Formatter, w: World, a: Action)
    requires WorldSound(releases, w) && Possible(w, a)
    ensures WorldSound(releases, Next(releases, w, a))
  {
    var w' := Next(releases, w, a);
    forall slot | slot in w'.disk
      ensures Sound(releases(slot.version), slot.style, LoadedPoints(w'.disk, slot))
    {
      if slot in w.disk {
        assert Sound(releases(slot.version), slot.style, LoadedPoints(w.disk, slot));
      }
    }
    if a.CheckFile? {
      var p := w.processes[a.pid];
      var fmt, style := releases(p.slot.version), p.slot.style;
      VerdictIsUncached(fmt, style, p.points, a.file);
      assert (p.files + [a.file])[..|p.files|] == p.files;
    }
  }

  /**
   * Whatever the history of runs, releases, damage and interleaving: every slot
   * a check could load names only clean contents, and so does every cache in
   * memory.
   */
  lemma {:induction false} EveryHistoryIsSound(releases: Version -> Formatter, actions: seq<Action>)
    requires Run(releases, actions).Some?
    ensures WorldSound(releases, Run(releases, actions).value)
    decreases |actions|
  {
    if |actions| > 0 {
      EveryHistoryIsSound(releases, actions[..|actions| - 1]);
      NextKeepsSoundness(releases, Run(releases, actions[..|actions| - 1]).value, actions[|actions| - 1]);
    }
  }

  /** At any moment of any history, what a check has to report is what a run without a cache reports. */
  lemma EveryRunReportsUncached(releases: Version -> Formatter, actions: seq<Action>, pid: nat)
    requires Run(releases, actions).Some? && pid in Run(releases, actions).value.processes
    ensures var p := Run(releases, actions).value.processes[pid];
      p.result == Uncached(releases(p.slot.version), p.slot.style, p.files)
  {
    EveryHistoryIsSound(releases, actions);
  }

  /**
   * Nothing stands in the way of a history but this: a check starts once, only a
   * started one checks and persists, and only other schemas leave stale files.
   */
  lemma HistoriesExtend(releases: Version -> Formatter, actions: seq<Action>, a: Action)
    ensures Run(releases, []) == Some(World(map[], map[]))
    ensures Run(releases, actions + [a]).Some? <==>
      && Run(releases, actions).Some?
      && var w := Run(releases, actions).value;
         match a
         case Start(pid, _) => pid !in w.processes
         case CheckFile(pid, _) => pid in w.processes
         case Persist(pid) => pid in w.processes
         case Damage(_) => true
         case Outdate(_, schema, _) => schema != 2
  {
    assert (actions + [a])[..|actions|] == actions;
  }

  /** The files a check went through, told from the actions. */
  function Checked(actions: seq<Action>, pid: nat): seq<SourceFile> {
    if |actions| == 0 then []
    else
      var last := actions[|actions| - 1];
      Checked(actions[..|actions| - 1], pid) + (if last.CheckFile? && last.pid == pid then [last.file] else [])
  }

  predicate StartsAt(actions: seq<Action>, k: nat, pid: nat, slot: Slot) {
    k < |actions| && actions[k] == Start(pid, slot)
  }

  lemma {:induction false} LearnAllGrows(fmt: Formatter, style: Style, points: set<CacheKey>, files: seq<SourceFile>)
    ensures points <= LearnAll(fmt, style, points, files)
  {
    if |files| > 0 {
      LearnAllGrows(fmt, style, points, files[..|files| - 1]);
    }
  }

  lemma {:induction false} ChecksNothingBeforeStart(releases: Version -> Formatter, actions: seq<Action>, pid: nat)
    requires Run(releases, actions).Some? && pid !in Run(releases, actions).value.processes
    ensures Checked(actions, pid) == [] && forall k: nat, slot :: !StartsAt(actions, k, pid, slot)
    decreases |actions|
  {
    if |actions| > 0 {
      var init := actions[..|actions| - 1];
      ChecksNothingBeforeStart(releases, init, pid);
      assert forall k: nat, slot :: k < |init| ==> (StartsAt(actions, k, pid, slot) <==> StartsAt(init, k, pid, slot));
    }
  }

  /** What a check knows and whether it learned anything, from what it loaded. */
  ghost predicate KnowsFrom(fmt: Formatter, loaded: set<CacheKey>, p: Process) {
    p.points == LearnAll(fmt, p.slot.style, loaded, p.files) && (p.dirty <==> p.points != loaded)
  }

  lemma KnowsOneMore(fmt: Formatter, loaded: set<CacheKey>, p: Process, file: SourceFile, result: CheckResult)
    requires KnowsFrom(fmt, loaded, p)
    ensures var points := Learn(fmt, p.slot.style, p.points, file);
      KnowsFrom(fmt, loaded, Process(p.slot, points, p.dirty || points != p.points, p.files + [file], result))
  {
    assert (p.files + [file])[..|p.files|] == p.files;
    LearnAllGrows(fmt, p.slot.style, loaded, p.files);
  }

  /** One action changes what a check knows only if it is that check's own. */
  lemma OthersLeaveProcess(releases: Version -> Formatter, w: World, a: Action, pid: nat)
    requires Possible(w, a) && pid in w.processes && !(a.CheckFile? && a.pid == pid)
    ensures var processes := Next(releases, w, a).processes; pid in processes && processes[pid] == w.processes[pid]
  {
  }

  /** A check knows what its slot held when it started, and the clean files it has been through since. */
  ghost predicate KnowsSince(releases: Version -> Formatter, actions: seq<Action>, k: nat, slot: Slot, p: Process) {
    && p.slot == slot && k <= |actions| && Run(releases, actions[..k]).Some?
    && KnowsFrom(releases(slot.version), LoadedPoints(Run(releases, actions[..k]).value.disk, slot), p)
  }

  /** A running check is what its own actions make of the disk it started from. */
  lemma {:induction false} ProcessIsItsActions(
      releases: Version -> Formatter, actions: seq<Action>, k: nat, pid: nat, slot: Slot)
    requires Run(releases, actions).Some? && StartsAt(actions, k, pid, slot)
    ensures var processes := Run(releases, actions).value.processes;
      && pid in processes && processes[pid].files == Checked(actions, pid)
      && KnowsSince(releases, actions, k, slot, processes[pid])
    decreases |actions|
  {
    var init, last := actions[..|actions| - 1], actions[|actions| - 1];
    if k == |init| {
      assert actions[..k] == init;
      ChecksNothingBeforeStart(releases, init, pid);
    } else {
      assert actions[..k] == init[..k];
      ProcessIsItsActions(releases, init, k, pid, slot);
      var w := Run(releases, init).value;
      if last.CheckFile? && last.pid == pid {
        var p, fmt := w.processes[pid], releases(slot.version);
        KnowsOneMore(fmt, LoadedPoints(Run(releases, init[..k]).value.disk, slot), p, last.file,
          Both(p.result, Verdict(fmt, slot.style, p.points, last.file)));
      } else {
        OthersLeaveProcess(releases, w, last, pid);
      }
    }
  }

  /** Persisting leaves what a check knows for the next one of its slot, if it learned anything. */
  lemma PersistedIsLoaded(releases: Version -> Formatter, w: World, pid: nat, slot: Slot)
    requires pid in w.processes
    ensures var p, disk := w.processes[pid], Next(releases, w, Persist(pid)).disk;
      LoadedPoints(disk, slot) ==
        if !p.dirty then LoadedPoints(w.disk, slot)
        else if slot == p.slot then p.points
        else if slot.version == p.slot.version then LoadedPoints(w.disk, slot) else {}
  {
    StoredIsLoaded(w.disk, w.processes[pid].slot, w.processes[pid].points, slot);
  }
}
