/**
 * Following `extend` from one configuration file to the next:
 * `load_merged_config` of `src/config.rs`.
 */
module ExtendChain {
  import opened Common
  import opened ConfigMerge

  type Path = string

  /** What reading a file gives: nothing, text that is not a table, or a table. */
  datatype Content = Unreadable | Malformed | Parsed(config: Config)

  /**
   * The finitely many files, by canonical path. `canonical` is the path itself
   * where it cannot be resolved, and `locate(path, extend)` is the path that an
   * `extend` value written in the file at `path` points to.
   */
  datatype Disk = Disk(files: map<Path, Content>, canonical: Path -> Path, locate: (Path, string) -> Path)

  datatype Error = Cycle(at: Path) | Io(at: Path) | Parse(at: Path) | NotAString(at: Path)

  function Read(disk: Disk, path: Path): Content {
    if disk.canonical(path) in disk.files then disk.files[disk.canonical(path)] else Unreadable
  }

  function ConfigAt(disk: Disk, path: Path): Config {
    match Read(disk, path) case Parsed(config) => config case _ => EMPTY
  }

  /** Where the file at `path` sends the loader next, if it is well formed and says so. */
  function Next(disk: Disk, path: Path): Option<Path> {
    var config := ConfigAt(disk, path);
    if "extend" in config.entries && config.entries["extend"].Text?
    then Some(disk.locate(path, config.entries["extend"].text)) else None
  }

  /** What is wrong with the file at `path` on its own. */
  function Fault(disk: Disk, path: Path): Option<Error> {
    match Read(disk, path)
    case Unreadable => Some(Io(path))
    case Malformed => Some(Parse(path))
    case Parsed(config) =>
      if "extend" in config.entries && !config.entries["extend"].Text? then Some(NotAString(path)) else None
  }

  // --- The unchecked walk ------------------------------------------------------------

  /** The `n`th file that following `extend` from `path` reaches, with no check for cycles. */
  function Walk(disk: Disk, path: Path, n: nat): Option<Path>
    decreases n
  {
    if n == 0 then Some(path)
    else match Next(disk, path) case Some(next) => Walk(disk, next, n - 1) case None => None
  }

  /** The canonical paths of the first `n` files of the walk. */
  function Trail(disk: Disk, path: Path, n: nat): seq<Path>
    decreases n
  {
    if n == 0 then []
    else [disk.canonical(path)]
         + match Next(disk, path) case Some(next) => Trail(disk, next, n - 1) case None => []
  }

  /** The tables of the first `n` files of the walk, the furthest first. */
  function Layers(disk: Disk, path: Path, n: nat): seq<Config>
    decreases n
  {
    if n == 0 then []
    else (match Next(disk, path) case Some(next) => Layers(disk, next, n - 1) case None => [])
         + [ConfigAt(disk, path)]
  }

  /** What reaching `here` settles, after the files in `seen` and with the tables in `layers`, its own last. */
  function Judge(disk: Disk, here: Path, seen: seq<Path>, layers: seq<Config>): Option<Result<Config, Error>> {
    if disk.canonical(here) in seen then Some(Err(Cycle(here)))
    else match Fault(disk, here)
    case Some(fault) => Some(Err(fault))
    case None => if Next(disk, here).Some? then None else Some(Ok(Effective(layers)))
  }

  /** What step `n` of the walk settles, if anything, when the files of `chain` came before it. */
  function Verdict(disk: Disk, path: Path, chain: seq<Path>, n: nat): Option<Result<Config, Error>> {
    match Walk(disk, path, n)
    case None => None
    case Some(here) => Judge(disk, here, chain + Trail(disk, path, n), Layers(disk, path, n + 1))
  }

  /** Step `n` is the first to settle anything, and it settles on `r`. */
  ghost predicate SettlesAt(disk: Disk, path: Path, chain: seq<Path>, n: nat, r: Result<Config, Error>) {
    && Verdict(disk, path, chain, n) == Some(r)
    && forall m :: 0 <= m < n ==> Verdict(disk, path, chain, m).None?
  }

  /** The files opened by step `n`, which opens none when it reports a cycle. */
  function Opened(disk: Disk, path: Path, n: nat, r: Result<Config, Error>): seq<Path> {
    Trail(disk, path, if r.Err? && r.error.Cycle? then n else n + 1)
  }

  ghost predicate LoadsTo(
      disk: Disk, path: Path, chain: seq<Path>, r: Result<Config, Error>, chain': seq<Path>) {
    exists n: nat :: EndsAt(disk, path, chain, n, r, chain')
  }

  ghost predicate EndsAt(
      disk: Disk, path: Path, chain: seq<Path>, n: nat, r: Result<Config, Error>, chain': seq<Path>) {
    SettlesAt(disk, path, chain, n, r) && chain' == chain + Opened(disk, path, n, r)
  }

  ghost function Unvisited(disk: Disk, chain: seq<Path>): set<Path> {
    set p | p in disk.files && p !in chain
  }

  lemma LoneLayer(disk: Disk, path: Path)
    requires Next(disk, path).None?
    ensures Effective(Layers(disk, path, 1)) == ConfigAt(disk, path)
  {
    var config := ConfigAt(disk, path);
    assert Layers(disk, path, 1) == [config];
    assert Effective([config][..0]) == EMPTY;
    assert Merge(EMPTY, config).entries == config.entries;
  }

  /** What a file makes of the result for the file it extends. */
  function Laid(disk: Disk, path: Path, inherited: Result<Config, Error>): Result<Config, Error> {
    match inherited case Ok(base) => Ok(Merge(base, ConfigAt(disk, path))) case Err(e) => Err(e)
  }

  function Over(
      disk: Disk, path: Path, verdict: Option<Result<Config, Error>>): Option<Result<Config, Error>> {
    match verdict case Some(r) => Some(Laid(disk, path, r)) case None => None
  }

  lemma TrailAfterStep(disk: Disk, path: Path, chain: seq<Path>, n: nat)
    requires Next(disk, path).Some?
    ensures chain + Trail(disk, path, n + 1)
         == chain + [disk.canonical(path)] + Trail(disk, Next(disk, path).value, n)
  {
    var rest := Trail(disk, Next(disk, path).value, n);
    assert chain + ([disk.canonical(path)] + rest) == chain + [disk.canonical(path)] + rest;
  }

  lemma VerdictAfterStep(disk: Disk, path: Path, chain: seq<Path>, n: nat)
    requires Next(disk, path).Some?
    ensures Verdict(disk, path, chain, n + 1)
         == Over(disk, path, Verdict(disk, Next(disk, path).value, chain + [disk.canonical(path)], n))
  {
    var next := Next(disk, path).value;
    var layers := Layers(disk, next, n + 1);
    assert Layers(disk, path, n + 2) == layers + [ConfigAt(disk, path)];
    TrailAfterStep(disk, path, chain, n);
    match Walk(disk, next, n) {
      case Some(here) =>
      case None =>
    }
  }

  lemma OpenedAfterStep(disk: Disk, path: Path, chain: seq<Path>, n: nat, inherited: Result<Config, Error>)
    requires Next(disk, path).Some?
    ensures chain + Opened(disk, path, n + 1, Laid(disk, path, inherited))
         == chain + [disk.canonical(path)] + Opened(disk, Next(disk, path).value, n, inherited)
  {
    TrailAfterStep(disk, path, chain, if inherited.Err? && inherited.error.Cycle? then n else n + 1);
  }

  lemma SettlesAfterStep(disk: Disk, path: Path, chain: seq<Path>, n: nat, inherited: Result<Config, Error>)
    requires disk.canonical(path) !in chain && Fault(disk, path).None? && Next(disk, path).Some?
    requires SettlesAt(disk, Next(disk, path).value, chain + [disk.canonical(path)], n, inherited)
    ensures SettlesAt(disk, path, chain, n + 1, Laid(disk, path, inherited))
  {
    VerdictAfterStep(disk, path, chain, n);
    forall m | 0 <= m < n + 1 ensures Verdict(disk, path, chain, m).None? {
      if m > 0 {
        assert Verdict(disk, Next(disk, path).value, chain + [disk.canonical(path)], m - 1).None?;
        VerdictAfterStep(disk, path, chain, m - 1);
      }
    }
  }

  lemma EndsAfterStep(
      disk: Disk, path: Path, chain: seq<Path>, n: nat, inherited: Result<Config, Error>, chain': seq<Path>)
    requires disk.canonical(path) !in chain && Fault(disk, path).None? && Next(disk, path).Some?
    requires EndsAt(disk, Next(disk, path).value, chain + [disk.canonical(path)], n, inherited, chain')
    ensures EndsAt(disk, path, chain, n + 1, Laid(disk, path, inherited), chain')
  {
    SettlesAfterStep(disk, path, chain, n, inherited);
    OpenedAfterStep(disk, path, chain, n, inherited);
  }

  lemma StepBack(disk: Disk, path: Path, chain: seq<Path>, inherited: Result<Config, Error>, chain': seq<Path>)
    requires disk.canonical(path) !in chain && Fault(disk, path).None? && Next(disk, path).Some?
    requires LoadsTo(disk, Next(disk, path).value, chain + [disk.canonical(path)], inherited, chain')
    ensures LoadsTo(disk, path, chain, Laid(disk, path, inherited), chain')
  {
    var n: nat :|
      EndsAt(disk, Next(disk, path).value, chain + [disk.canonical(path)], n, inherited, chain');
    EndsAfterStep(disk, path, chain, n, inherited, chain');
  }

  /** The first file settles the load by itself. */
  lemma SettlesHere(disk: Disk, path: Path, chain: seq<Path>, r: Result<Config, Error>)
    requires disk.canonical(path) !in chain
    requires r == match Fault(disk, path) case Some(fault) => Err(fault) case None => Ok(ConfigAt(disk, path))
    requires Next(disk, path).None?
    ensures LoadsTo(disk, path, chain, r, chain + [disk.canonical(path)])
  {
    LoneLayer(disk, path);
    assert Opened(disk, path, 0, r) == [disk.canonical(path)];
    assert EndsAt(disk, path, chain, 0, r, chain + [disk.canonical(path)]);
  }

  lemma CycleHere(disk: Disk, path: Path, chain: seq<Path>)
    requires disk.canonical(path) in chain
    ensures LoadsTo(disk, path, chain, Err(Cycle(path)), chain)
  {
    assert Opened(disk, path, 0, Err(Cycle(path))) == [] && chain + [] == chain;
    assert EndsAt(disk, path, chain, 0, Err(Cycle(path)), chain);
  }

  /**
   * The recursive loader, which stops because every step visits a file not
   * visited before.
   */
  method LoadMergedConfig(disk: Disk, path: Path, chain: seq<Path>)
    returns (r: Result<Config, Error>, chain': seq<Path>)
    ensures LoadsTo(disk, path, chain, r, chain')
    decreases Unvisited(disk, chain)
  {
    var canonical := disk.canonical(path);
    if canonical in chain {
      CycleHere(disk, path, chain);
      return Err(Cycle(path)), chain;
    }
    chain' := chain + [canonical];
    match Read(disk, path) {
      case Unreadable =>
        r := Err(Io(path));
        SettlesHere(disk, path, chain, r);
      case Malformed =>
        r := Err(Parse(path));
        SettlesHere(disk, path, chain, r);
      case Parsed(table) =>
        if "extend" !in table.entries {
          r := Ok(table);
          SettlesHere(disk, path, chain, r);
        } else if !table.entries["extend"].Text? {
          r := Err(NotAString(path));
          SettlesHere(disk, path, chain, r);
        } else {
          var base := disk.locate(path, table.entries["extend"].text);
          assert canonical in Unvisited(disk, chain) && canonical !in Unvisited(disk, chain');
          var inherited;
          inherited, chain' := LoadMergedConfig(disk, base, chain');
          if inherited.Ok? {
            var merged := MergeInto(inherited.value, table);
            r := Ok(merged);
          } else {
            r := inherited;
          }
          StepBack(disk, path, chain, inherited, chain');
        }
    }
  }

  // --- What the loader promises ----------------------------------------------------------

  /** The file at `path` reads as `content`, one that is not there as unreadable. */
  predicate ReadsAs(disk: Disk, path: Path, content: Content) {
    if disk.canonical(path) in disk.files then disk.files[disk.canonical(path)] == content else content == Unreadable
  }

  /**
   * What the file where a load ends has to do with its result: it was opened
   * before; or it cannot be read, is no table, or has an `extend` that is no
   * text; or it extends nothing, and then the load succeeds.
   */
  lemma WhatSettles(disk: Disk, path: Path, chain: seq<Path>, n: nat, r: Result<Config, Error>)
    requires SettlesAt(disk, path, chain, n, r)
    ensures Walk(disk, path, n).Some?
    ensures var last := Walk(disk, path, n).value;
      match r
      case Err(Cycle(at)) => at == last && disk.canonical(last) in chain + Trail(disk, path, n)
      case Err(Io(at)) => at == last && ReadsAs(disk, last, Unreadable)
      case Err(Parse(at)) => at == last && ReadsAs(disk, last, Malformed)
      case Err(NotAString(at)) =>
        && at == last
        && (exists config ::
              ReadsAs(disk, last, Parsed(config)) && "extend" in config.entries && !config.entries["extend"].Text?)
      case Ok(_) => exists config :: ReadsAs(disk, last, Parsed(config)) && "extend" !in config.entries
  {
    var last := Walk(disk, path, n).value;
    match Read(disk, last) {
      case Parsed(config) => assert ReadsAs(disk, last, Parsed(config));
      case _ =>
    }
  }

  /** The result and the files opened are fixed by the files on disk. */
  lemma LoadIsDetermined(
      disk: Disk, path: Path, chain: seq<Path>,
      r: Result<Config, Error>, files: seq<Path>, s: Result<Config, Error>, files': seq<Path>)
    requires LoadsTo(disk, path, chain, r, files) && LoadsTo(disk, path, chain, s, files')
    ensures r == s && files == files'
  {
    var n: nat :| EndsAt(disk, path, chain, n, r, files);
    var m: nat :| EndsAt(disk, path, chain, m, s, files');
  }

  lemma {:induction false} WalkSteps(disk: Disk, path: Path, n: nat)
    ensures Walk(disk, path, n + 1)
         == match Walk(disk, path, n) case Some(here) => Next(disk, here) case None => None
    decreases n
  {
    match Next(disk, path) {
      case Some(next) =>
        if n > 0 {
          WalkSteps(disk, next, n - 1);
        }
      case None =>
    }
  }

  lemma {:induction false} WalkStopsForGood(disk: Disk, path: Path, m: nat, n: nat)
    requires m <= n && Walk(disk, path, n).Some?
    ensures Walk(disk, path, m).Some?
    decreases n - m
  {
    if m < n {
      WalkSteps(disk, path, m);
      WalkStopsForGood(disk, path, m + 1, n);
    }
  }

  lemma {:induction false} TrailAt(disk: Disk, path: Path, n: nat)
    requires n > 0 ==> Walk(disk, path, n - 1).Some?
    ensures |Trail(disk, path, n)| == n
    ensures forall i :: 0 <= i < n ==> Walk(disk, path, i).Some?
    ensures forall i :: 0 <= i < n ==> Trail(disk, path, n)[i] == disk.canonical(Walk(disk, path, i).value)
    decreases n
  {
    if n > 0 {
      match Next(disk, path) {
        case Some(next) =>
          TrailAt(disk, next, n - 1);
        case None =>
      }
    }
  }

  predicate Distinct(s: seq<Path>) {
    forall i, j :: 0 <= i < j < |s| ==> s[i] != s[j]
  }

  lemma {:induction false} TrailIsDistinct(disk: Disk, path: Path, chain: seq<Path>, n: nat)
    requires Distinct(chain)
    requires n > 0 ==> Walk(disk, path, n - 1).Some?
    requires forall m :: 0 <= m < n ==> NotBefore(disk, path, chain, m)
    ensures Distinct(chain + Trail(disk, path, n))
  {
    TrailAt(disk, path, n);
    if n > 0 {
      if n > 1 {
        WalkStopsForGood(disk, path, n - 2, n - 1);
      }
      TrailIsDistinct(disk, path, chain, n - 1);
      TrailAt(disk, path, n - 1);
      var all, init := chain + Trail(disk, path, n), chain + Trail(disk, path, n - 1);
      assert NotBefore(disk, path, chain, n - 1);
      assert all == init + [disk.canonical(Walk(disk, path, n - 1).value)];
    }
  }

  /** Step `m` reaches no file from before it. */
  predicate NotBefore(disk: Disk, path: Path, chain: seq<Path>, m: nat) {
    match Walk(disk, path, m)
    case Some(here) => disk.canonical(here) !in chain + Trail(disk, path, m)
    case None => true
  }

  /** No file is opened twice, however many spellings its path has. */
  lemma NoFileIsOpenedTwice(
      disk: Disk, path: Path, chain: seq<Path>, r: Result<Config, Error>, chain': seq<Path>)
    requires Distinct(chain) && LoadsTo(disk, path, chain, r, chain')
    ensures Distinct(chain')
  {
    var n: nat :| EndsAt(disk, path, chain, n, r, chain');
    OpenedStepsAreNew(disk, path, chain, n, r);
    TrailIsDistinct(disk, path, chain, if r.Err? && r.error.Cycle? then n else n + 1);
  }

  /** The steps that open a file each reach a new one, and the last of them is on the walk. */
  lemma OpenedStepsAreNew(disk: Disk, path: Path, chain: seq<Path>, n: nat, r: Result<Config, Error>)
    requires SettlesAt(disk, path, chain, n, r)
    ensures var steps := if r.Err? && r.error.Cycle? then n else n + 1;
      && (steps > 0 ==> Walk(disk, path, steps - 1).Some?)
      && forall m :: 0 <= m < steps ==> NotBefore(disk, path, chain, m)
  {
    StepsBefore(disk, path, chain, n, r);
    if n > 0 {
      WalkStopsForGood(disk, path, n - 1, n);
    }
  }

  /** Every step before the settling one reaches a new file that sends the loader on. */
  lemma StepsBefore(disk: Disk, path: Path, chain: seq<Path>, n: nat, r: Result<Config, Error>)
    requires SettlesAt(disk, path, chain, n, r)
    ensures Walk(disk, path, n).Some?
    ensures forall m :: 0 <= m < n ==> NotBefore(disk, path, chain, m)
    ensures !(r.Err? && r.error.Cycle?) ==> NotBefore(disk, path, chain, n) && Walk(disk, path, n + 1).None?
  {
    WalkSteps(disk, path, n);
    forall m | 0 <= m < n ensures NotBefore(disk, path, chain, m) {
      assert Verdict(disk, path, chain, m).None?;
    }
  }

  /** The walk comes back to a file, under whatever spelling. */
  ghost predicate ComesBack(disk: Disk, path: Path, i: nat, j: nat) {
    && i < j && Walk(disk, path, i).Some? && Walk(disk, path, j).Some?
    && disk.canonical(Walk(disk, path, i).value) == disk.canonical(Walk(disk, path, j).value)
  }

  /** A cycle is reported exactly when following `extend` comes back to a file. */
  lemma CycleIffTheWalkComesBack(disk: Disk, path: Path, r: Result<Config, Error>, chain': seq<Path>)
    requires LoadsTo(disk, path, [], r, chain')
    ensures r.Err? && r.error.Cycle? <==> exists i: nat, j: nat :: ComesBack(disk, path, i, j)
  {
    var n: nat :| EndsAt(disk, path, [], n, r, chain');
    if r.Err? && r.error.Cycle? {
      ReportedCycleComesBack(disk, path, n, r);
    } else {
      forall i: nat, j: nat ensures !ComesBack(disk, path, i, j) {
        NothingComesBack(disk, path, n, r, i, j);
      }
    }
  }

  lemma ReportedCycleComesBack(disk: Disk, path: Path, n: nat, r: Result<Config, Error>)
    requires SettlesAt(disk, path, [], n, r) && r.Err? && r.error.Cycle?
    ensures exists i: nat :: ComesBack(disk, path, i, n)
  {
    StepsBefore(disk, path, [], n, r);
    if n > 0 {
      WalkStopsForGood(disk, path, n - 1, n);
    }
    TrailAt(disk, path, n);
    var i :| 0 <= i < n && Trail(disk, path, n)[i] == disk.canonical(Walk(disk, path, n).value);
    assert ComesBack(disk, path, i, n);
  }

  lemma NothingComesBack(disk: Disk, path: Path, n: nat, r: Result<Config, Error>, i: nat, j: nat)
    requires SettlesAt(disk, path, [], n, r) && !(r.Err? && r.error.Cycle?)
    ensures !ComesBack(disk, path, i, j)
  {
    StepsBefore(disk, path, [], n, r);
    if i < j && Walk(disk, path, j).Some? {
      if j <= n {
        assert NotBefore(disk, path, [], j);
        WalkStopsForGood(disk, path, j - 1, j);
        TrailAt(disk, path, j);
        assert Trail(disk, path, j)[i] in Trail(disk, path, j);
      } else {
        WalkStopsForGood(disk, path, n + 1, j);
      }
    }
  }

  /** A load opens at most one file more than there are. */
  lemma LoadIsShort(disk: Disk, path: Path, n: nat, r: Result<Config, Error>)
    requires SettlesAt(disk, path, [], n, r)
    ensures n <= |disk.files|
  {
    StepsBefore(disk, path, [], n, r);
    if n > 0 {
      WalkStopsForGood(disk, path, n - 1, n);
      TrailIsDistinct(disk, path, [], n);
      TrailAt(disk, path, n);
      assert [] + Trail(disk, path, n) == Trail(disk, path, n);
      forall i | 0 <= i < n ensures Trail(disk, path, n)[i] in disk.files {
        WalkReads(disk, path, i, n);
      }
      DistinctFit(Trail(disk, path, n), disk.files.Keys);
    }
  }

  /** A file the walk goes on from is on disk. */
  lemma WalkReads(disk: Disk, path: Path, i: nat, n: nat)
    requires i < n && Walk(disk, path, n).Some?
    ensures Walk(disk, path, i).Some? && disk.canonical(Walk(disk, path, i).value) in disk.files
  {
    WalkStopsForGood(disk, path, i + 1, n);
    WalkSteps(disk, path, i);
  }

  lemma {:induction false} DistinctFit(s: seq<Path>, within: set<Path>)
    requires Distinct(s) && forall i :: 0 <= i < |s| ==> s[i] in within
    ensures |s| <= |within|
  {
    if |s| > 0 {
      DistinctFit(s[1..], within - {s[0]});
    }
  }

  // --- Cycles and endless walks -------------------------------------------------------------

  /** A walk with no end is always reported as a cycle. */
  lemma EndlessWalkIsACycle(disk: Disk, path: Path, r: Result<Config, Error>, chain': seq<Path>)
    requires forall n: nat :: Walk(disk, path, n).Some?
    requires LoadsTo(disk, path, [], r, chain')
    ensures r.Err? && r.error.Cycle?
  {
    var n: nat :| EndsAt(disk, path, [], n, r, chain');
    StepsBefore(disk, path, [], n, r);
  }

  /** Spellings of one file send the loader to spellings of one file. */
  ghost predicate SpellingsAgree(disk: Disk) {
    forall p: Path, q: Path :: LeadAlike(disk, p, q)
  }

  ghost predicate LeadAlike(disk: Disk, p: Path, q: Path) {
    disk.canonical(p) == disk.canonical(q) ==>
      forall extend: string :: disk.canonical(disk.locate(p, extend)) == disk.canonical(disk.locate(q, extend))
  }

  /** Where spellings agree, the walks reported as cycles are the endless ones. */
  lemma CycleIffEndless(disk: Disk, path: Path, r: Result<Config, Error>, chain': seq<Path>)
    requires SpellingsAgree(disk)
    requires LoadsTo(disk, path, [], r, chain')
    ensures r.Err? && r.error.Cycle? <==> forall n: nat :: Walk(disk, path, n).Some?
  {
    if r.Err? && r.error.Cycle? {
      CycleIffTheWalkComesBack(disk, path, r, chain');
      var i: nat, j: nat :| ComesBack(disk, path, i, j);
      forall n: nat ensures Walk(disk, path, n).Some? {
        if n < i {
          WalkStopsForGood(disk, path, n, i);
        } else {
          WalkRepeats(disk, path, i, j - i, n);
        }
      }
    } else {
      var n: nat :| EndsAt(disk, path, [], n, r, chain');
      StepsBefore(disk, path, [], n, r);
      assert Walk(disk, path, n + 1).None?;
    }
  }

  lemma StepTogether(disk: Disk, path: Path, m: nat, k: nat)
    requires SpellingsAgree(disk) && ComesBack(disk, path, m, k) && Walk(disk, path, m + 1).Some?
    ensures ComesBack(disk, path, m + 1, k + 1)
  {
    WalkSteps(disk, path, m);
    WalkSteps(disk, path, k);
    assert LeadAlike(disk, Walk(disk, path, m).value, Walk(disk, path, k).value);
  }

  lemma {:induction false} WalkRepeats(disk: Disk, path: Path, i: nat, period: nat, n: nat)
    requires SpellingsAgree(disk) && ComesBack(disk, path, i, i + period) && i <= n
    ensures ComesBack(disk, path, n, n + period)
    decreases n
  {
    if i < n {
      WalkRepeats(disk, path, i, period, n - 1);
      WalkStopsForGood(disk, path, n, n - 1 + period);
      StepTogether(disk, path, n - 1, n - 1 + period);
    }
  }

  // --- A cycle report on a walk that ends ------------------------------------------------------

  /** `sub/a.toml` is a link to `a.toml`, and `sub/sub/a.toml` is a file of its own. */
  function LinkedCanonical(path: Path): Path {
    if path == "sub/a.toml" then "a.toml" else path
  }

  /** Every file that extends another extends `sub/a.toml`, next to itself. */
  function LinkedLocate(path: Path, extend: string): Path {
    if path == "a.toml" then "sub/a.toml" else "sub/sub/a.toml"
  }

  function LinkedDisk(): Disk {
    Disk(map["a.toml" := Parsed(Config(map["extend" := Text("sub/a.toml")])), "sub/sub/a.toml" := Parsed(EMPTY)],
         LinkedCanonical, LinkedLocate)
  }

  /** Where spellings disagree, a walk that ends can still be reported as a cycle. */
  lemma CycleReportedOnAFiniteWalk()
    ensures LoadsTo(LinkedDisk(), "a.toml", [], Err(Cycle("sub/a.toml")), ["a.toml"])
    ensures Walk(LinkedDisk(), "a.toml", 2) == Some("sub/sub/a.toml") && Walk(LinkedDisk(), "a.toml", 3) == None
  {
    var disk := LinkedDisk();
    var extend := Config(map["extend" := Text("sub/a.toml")]);
    assert Next(disk, "a.toml") == Some("sub/a.toml");
    assert Next(disk, "sub/a.toml") == Some("sub/sub/a.toml");
    assert Next(disk, "sub/sub/a.toml") == None;
    WalkSteps(disk, "a.toml", 0);
    WalkSteps(disk, "a.toml", 1);
    WalkSteps(disk, "a.toml", 2);
    assert Trail(disk, "a.toml", 1) == ["a.toml"];
    var r: Result<Config, Error> := Err(Cycle("sub/a.toml"));
    assert Verdict(disk, "a.toml", [], 0) == None;
    assert SettlesAt(disk, "a.toml", [], 1, r);
    assert EndsAt(disk, "a.toml", [], 1, r, ["a.toml"]);
  }
}
