/** The bounded fixpoint loops of `src/main.rs` behind `arity lint --fix`. */
module FixLoop {
  import opened Common
  import opened Fixes
  import opened Paths
  import opened TrackedInputs

  const MAX_FIX_ITERATIONS: nat := 10

  /** Linting a text: a failure, or the findings with the fix each one carries. */
  type Linter = string -> Option<seq<Option<Fix>>>

  function OfferedFixes(findings: seq<Option<Fix>>): seq<Fix> {
    if |findings| == 0 then []
    else (match findings[0] case Some(fix) => [fix] case None => []) + OfferedFixes(findings[1..])
  }

  /** The fixes of the findings that carry one, in their order. */
  lemma {:induction false} OfferedAreCarried(findings: seq<Option<Fix>>, fix: Fix)
    ensures fix in OfferedFixes(findings) <==> Some(fix) in findings
    decreases |findings|
  {
    if |findings| > 0 {
      OfferedAreCarried(findings[1..], fix);
      assert findings == [findings[0]] + findings[1..];
    }
  }

  lemma {:induction false} OfferedInOrder(findings: seq<Option<Fix>>, more: seq<Option<Fix>>)
    ensures OfferedFixes(findings + more) == OfferedFixes(findings) + OfferedFixes(more)
    decreases |findings|
  {
    if |findings| == 0 {
      assert findings + more == more;
    } else {
      assert (findings + more)[1..] == findings[1..] + more;
      OfferedInOrder(findings[1..], more);
    }
  }

  /** One round: what would be spliced, or nothing when the loop has to stop. */
  function Round(lint: Linter, content: string, includeUnsafe: bool): Option<FixOutcome> {
    match lint(content)
    case None => None
    case Some(findings) =>
      var fixes := OfferedFixes(findings);
      if |fixes| == 0 then None
      else
        var outcome := Outcome(content, fixes, includeUnsafe);
        if outcome.applied == 0 then None else Some(outcome)
  }

  /** One round leads from `content` to `next`. */
  predicate StepsTo(lint: Linter, includeUnsafe: bool, content: string, next: string) {
    var round := Round(lint, content, includeUnsafe);
    round.Some? && round.value.output == next
  }

  predicate StepsAt(lint: Linter, includeUnsafe: bool, texts: seq<string>, i: nat)
    requires i + 1 < |texts|
  {
    StepsTo(lint, includeUnsafe, texts[i], texts[i + 1])
  }

  /** The texts the loop goes through: each is the splice of the one before. */
  ghost predicate IsTrace(lint: Linter, includeUnsafe: bool, texts: seq<string>) {
    && |texts| > 0
    && forall i: nat :: i + 1 < |texts| ==> StepsAt(lint, includeUnsafe, texts, i)
  }

  ghost function AppliedAlong(lint: Linter, includeUnsafe: bool, texts: seq<string>): nat
    requires IsTrace(lint, includeUnsafe, texts)
  {
    if |texts| == 1 then 0
    else
      PrefixIsTrace(lint, includeUnsafe, texts);
      AppliedAlong(lint, includeUnsafe, texts[..|texts| - 1])
      + Round(lint, texts[|texts| - 2], includeUnsafe).value.applied
  }

  lemma PrefixIsTrace(lint: Linter, includeUnsafe: bool, texts: seq<string>)
    requires IsTrace(lint, includeUnsafe, texts) && |texts| > 1
    ensures IsTrace(lint, includeUnsafe, texts[..|texts| - 1])
    ensures StepsTo(lint, includeUnsafe, texts[|texts| - 2], texts[|texts| - 1])
  {
    var init := texts[..|texts| - 1];
    forall i: nat | i + 1 < |init| ensures StepsAt(lint, includeUnsafe, init, i) {
      assert StepsAt(lint, includeUnsafe, texts, i);
    }
    assert StepsAt(lint, includeUnsafe, texts, |texts| - 2);
  }

  /** Linting fails on `content`, or no fix it offers can be applied. */
  ghost predicate Settled(lint: Linter, content: string, includeUnsafe: bool) {
    match lint(content)
    case None => true
    case Some(findings) =>
      forall f :: f in OfferedFixes(findings) ==> !(IsEligible(f, includeUnsafe) && WellFormed(f, |content|))
  }

  lemma SettledIffNoRound(lint: Linter, content: string, includeUnsafe: bool)
    ensures Settled(lint, content, includeUnsafe) <==> Round(lint, content, includeUnsafe) == None
  {
    match lint(content) {
      case None =>
      case Some(findings) => AppliesIffSomethingFits(content, OfferedFixes(findings), includeUnsafe);
    }
  }

  /** The loop stops at a text when linting it fails, or finds nothing that carries a fix it may apply. */
  lemma SettledMeans(lint: Linter, content: string, includeUnsafe: bool)
    ensures Settled(lint, content, includeUnsafe) <==>
      lint(content).None?
      || forall f :: Some(f) in lint(content).value ==>
           (f.applicability == Unsafe && !includeUnsafe) || f.start > f.end || f.end > |content|
  {
    if lint(content).Some? {
      forall f ensures f in OfferedFixes(lint(content).value) <==> Some(f) in lint(content).value {
        OfferedAreCarried(lint(content).value, f);
      }
    }
  }

  /** What the loop promises about its result. */
  ghost predicate FixedUp(
      lint: Linter, content: string, includeUnsafe: bool, fixed: string, total: nat, texts: seq<string>)
  {
    && IsTrace(lint, includeUnsafe, texts)
    && texts[0] == content && texts[|texts| - 1] == fixed
    && |texts| <= MAX_FIX_ITERATIONS + 1
    && total == AppliedAlong(lint, includeUnsafe, texts)
    && (|texts| <= MAX_FIX_ITERATIONS ==> Settled(lint, fixed, includeUnsafe))
  }

  /** Some sequence of rounds leads from `content` to `fixed` and applies `total` fixes. */
  ghost predicate FixesTo(lint: Linter, content: string, includeUnsafe: bool, fixed: string, total: nat) {
    exists texts :: FixedUp(lint, content, includeUnsafe, fixed, total, texts)
  }

  lemma ExtendTrace(lint: Linter, includeUnsafe: bool, texts: seq<string>)
    requires IsTrace(lint, includeUnsafe, texts)
    requires Round(lint, texts[|texts| - 1], includeUnsafe).Some?
    ensures var outcome := Round(lint, texts[|texts| - 1], includeUnsafe).value;
      && IsTrace(lint, includeUnsafe, texts + [outcome.output])
      && AppliedAlong(lint, includeUnsafe, texts + [outcome.output])
         == AppliedAlong(lint, includeUnsafe, texts) + outcome.applied
  {
    var output := Round(lint, texts[|texts| - 1], includeUnsafe).value.output;
    TraceGrows(lint, includeUnsafe, texts, output);
    assert (texts + [output])[..|texts|] == texts;
  }

  lemma TraceGrows(lint: Linter, includeUnsafe: bool, texts: seq<string>, next: string)
    requires IsTrace(lint, includeUnsafe, texts) && StepsTo(lint, includeUnsafe, texts[|texts| - 1], next)
    ensures IsTrace(lint, includeUnsafe, texts + [next])
  {
    forall i: nat | i + 1 < |texts + [next]| ensures StepsAt(lint, includeUnsafe, texts + [next], i) {
      if i + 1 < |texts| {
        assert StepsAt(lint, includeUnsafe, texts, i);
      }
    }
  }

  /** Lint once and splice what can be applied; nothing when there is no reason to go on. */
  method FixRound(lint: Linter, content: string, includeUnsafe: bool) returns (round: Option<FixOutcome>)
    ensures round == Round(lint, content, includeUnsafe)
    ensures round.None? <==> Settled(lint, content, includeUnsafe)
  {
    SettledIffNoRound(lint, content, includeUnsafe);
    var findings := lint(content);
    if findings.None? {
      return None;
    }
    var fixes := OfferedFixes(findings.value);
    if |fixes| == 0 {
      return None;
    }
    var outcome := ApplyFixes(content, fixes, includeUnsafe);
    return if outcome.applied == 0 then None else Some(outcome);
  }

  method FixSource(lint: Linter, content: string, includeUnsafe: bool)
    returns (fixed: string, total: nat)
    ensures FixesTo(lint, content, includeUnsafe, fixed, total)
  {
    fixed, total := content, 0;
    ghost var texts := [content];
    for i := 0 to MAX_FIX_ITERATIONS
      invariant |texts| == i + 1 && IsTrace(lint, includeUnsafe, texts)
      invariant texts[0] == content && texts[i] == fixed
      invariant total == AppliedAlong(lint, includeUnsafe, texts)
    {
      var outcome := FixRound(lint, fixed, includeUnsafe);
      if outcome.None? {
        assert FixedUp(lint, content, includeUnsafe, fixed, total, texts);
        return;
      }
      ExtendTrace(lint, includeUnsafe, texts);
      total := total + outcome.value.applied;
      fixed := outcome.value.output;
      texts := texts + [fixed];
    }
    assert FixedUp(lint, content, includeUnsafe, fixed, total, texts);
  }

  /** Linting one tracked file in the sight of all of them. */
  type ProjectLinter = (seq<SourceFile>, nat) -> Option<seq<Option<Fix>>>

  function WithText(files: seq<SourceFile>, i: nat, text: string): seq<SourceFile>
    requires i < |files|
  {
    files[i := files[i].(text := text)]
  }

  /** What linting says about each text of the file at `i`, the other files being what they are. */
  function Beside(lint: ProjectLinter, files: seq<SourceFile>, i: nat): Linter
    requires i < |files|
  {
    (text: string) => lint(WithText(files, i, text), i)
  }

  /** The tracked files once `path` is among them with its text, at index `i`. */
  ghost function Opened(db: Database, path: Path, text: string): (files: seq<SourceFile>)
    requires db.Valid()
    reads db
    ensures PlaceOf(db, path) < |files|
  {
    if Normalize(db.cwd, path) in db.byPath then WithText(db.files, PlaceOf(db, path), text)
    else db.files + [SourceFile(db.nextId, Some(path), text)]
  }

  ghost function PlaceOf(db: Database, path: Path): nat
    reads db
  {
    if Normalize(db.cwd, path) in db.byPath then db.byPath[Normalize(db.cwd, path)] else |db.files|
  }

  /** Opening `path` with any text leads to `files` with that text at `i`. */
  ghost predicate OpensTo(db: Database, path: Path, files: seq<SourceFile>, i: nat)
    reads db
  {
    && db.Valid() && i < |files| && PlaceOf(db, path) == i
    && forall text :: Opened(db, path, text) == WithText(files, i, text)
  }

  /** Open or update the file being fixed. */
  method Sync(db: Database, path: Path, text: string, ghost files: seq<SourceFile>, ghost i: nat)
    returns (active: Handle)
    requires OpensTo(db, path, files, i)
    modifies db`files, db`byPath, db`nextId, db`revision
    ensures OpensTo(db, path, files, i)
    ensures active.index == i && Normalize(db.cwd, path) in db.byPath
    ensures db.files == WithText(files, i, text)
  {
    assert Opened(db, path, text) == WithText(files, i, text);
    active := db.UpsertFile(path, text);
    assert PlaceOf(db, path) == i;
    forall other ensures Opened(db, path, other) == WithText(files, i, other) {
      RetextTwice(files, i, text, other);
    }
  }

  lemma RetextTwice(files: seq<SourceFile>, i: nat, text: string, other: string)
    requires i < |files|
    ensures WithText(WithText(files, i, text), i, other) == WithText(files, i, other)
  {
  }

  lemma OpensToOpened(db: Database, path: Path, text: string)
    requires db.Valid()
    ensures OpensTo(db, path, Opened(db, path, text), PlaceOf(db, path))
  {
    var files, i := Opened(db, path, text), PlaceOf(db, path);
    forall other ensures Opened(db, path, other) == WithText(files, i, other) {
    }
  }

  /** The project-aware loop keeps the tracked buffer in step with the text it is fixing, and the others as they are. */
  method FixSourceInProject(db: Database, lint: ProjectLinter, path: Path, content: string, includeUnsafe: bool)
    returns (fixed: string, total: nat)
    requires db.Valid()
    modifies db`files, db`byPath, db`nextId, db`revision
    ensures db.Valid() && Normalize(db.cwd, path) in db.byPath
    ensures var files, i := old(Opened(db, path, content)), old(PlaceOf(db, path));
      && FixesTo(Beside(lint, files, i), content, includeUnsafe, fixed, total)
      && db.files == WithText(files, i, fixed) && db.byPath[Normalize(db.cwd, path)] == i
  {
    ghost var files, i := Opened(db, path, content), PlaceOf(db, path);
    ghost var here := Beside(lint, files, i);
    OpensToOpened(db, path, content);
    fixed, total := content, 0;
    ghost var texts := [content];
    for n := 0 to MAX_FIX_ITERATIONS
      invariant OpensTo(db, path, files, i)
      invariant |texts| == n + 1 && IsTrace(here, includeUnsafe, texts)
      invariant texts[0] == content && texts[n] == fixed
      invariant total == AppliedAlong(here, includeUnsafe, texts)
    {
      var active := Sync(db, path, fixed, files, i);
      var outcome := FixRoundInProject(db, lint, active, fixed, includeUnsafe, files);
      if outcome.None? {
        break;
      }
      ExtendTrace(here, includeUnsafe, texts);
      total := total + outcome.value.applied;
      fixed := outcome.value.output;
      texts := texts + [fixed];
    }
    assert FixedUp(here, content, includeUnsafe, fixed, total, texts);
    var _ := Sync(db, path, fixed, files, i);
  }

  /** One round against the database as it stands. */
  method FixRoundInProject(
      db: Database, lint: ProjectLinter, active: Handle, content: string, includeUnsafe: bool,
      ghost files: seq<SourceFile>)
    returns (round: Option<FixOutcome>)
    requires active.index < |files| && db.files == WithText(files, active.index, content)
    ensures round == Round(Beside(lint, files, active.index), content, includeUnsafe)
    ensures round.None? <==> Settled(Beside(lint, files, active.index), content, includeUnsafe)
  {
    var others := db.files;
    round := FixRound(Beside(lint, others, active.index), content, includeUnsafe);
    assert WithText(others, active.index, content) == WithText(files, active.index, content);
  }

  /** Traces from one text cannot part: the shorter of two is a prefix of the longer. */
  lemma {:induction false} TracesAgree(lint: Linter, includeUnsafe: bool, a: seq<string>, b: seq<string>, n: nat)
    requires IsTrace(lint, includeUnsafe, a) && IsTrace(lint, includeUnsafe, b) && a[0] == b[0]
    requires n < |a| && n < |b|
    ensures a[n] == b[n]
  {
    if n > 0 {
      TracesAgree(lint, includeUnsafe, a, b, n - 1);
      assert StepsAt(lint, includeUnsafe, a, n - 1) && StepsAt(lint, includeUnsafe, b, n - 1);
    }
  }

  /** A fixed text stays as it is exactly when the run that fixed it had settled. */
  lemma FixingAgainIsNoOpIff(
      lint: Linter, content: string, includeUnsafe: bool, fixed: string, total: nat, again: string, extra: nat)
    requires FixesTo(lint, content, includeUnsafe, fixed, total)
    requires FixesTo(lint, fixed, includeUnsafe, again, extra)
    ensures Settled(lint, fixed, includeUnsafe) <==> extra == 0
    ensures extra == 0 ==> again == fixed
  {
    var more :| FixedUp(lint, fixed, includeUnsafe, again, extra, more);
    SettledIffNoRound(lint, fixed, includeUnsafe);
    if |more| > 1 {
      assert StepsAt(lint, includeUnsafe, more, 0);
      AppliedIsPositive(lint, includeUnsafe, more);
    }
  }

  /** At most ten rounds are made, and fewer only where the loop has nothing left to do. */
  lemma TenRoundsAtMost(lint: Linter, content: string, includeUnsafe: bool, fixed: string, total: nat)
    requires FixesTo(lint, content, includeUnsafe, fixed, total)
    ensures exists texts ::
      && IsTrace(lint, includeUnsafe, texts) && texts[0] == content && texts[|texts| - 1] == fixed
      && |texts| <= 11 && (|texts| < 11 ==> Settled(lint, fixed, includeUnsafe))
      && total == AppliedAlong(lint, includeUnsafe, texts)
  {
    var texts :| FixedUp(lint, content, includeUnsafe, fixed, total, texts);
  }

  lemma AppliedIsPositive(lint: Linter, includeUnsafe: bool, texts: seq<string>)
    requires IsTrace(lint, includeUnsafe, texts) && |texts| > 1
    ensures AppliedAlong(lint, includeUnsafe, texts) > 0
  {
    PrefixIsTrace(lint, includeUnsafe, texts);
  }

  /** The result is determined by the input. */
  lemma FixingIsDeterministic(
      lint: Linter, content: string, includeUnsafe: bool, fixed: string, total: nat, fixed': string, total': nat)
    requires FixesTo(lint, content, includeUnsafe, fixed, total)
    requires FixesTo(lint, content, includeUnsafe, fixed', total')
    ensures fixed == fixed' && total == total'
  {
    var texts :| FixedUp(lint, content, includeUnsafe, fixed, total, texts);
    var texts' :| FixedUp(lint, content, includeUnsafe, fixed', total', texts');
    if |texts| <= |texts'| {
      RunsAgree(lint, content, includeUnsafe, fixed, total, texts, fixed', total', texts');
    } else {
      RunsAgree(lint, content, includeUnsafe, fixed', total', texts', fixed, total, texts);
    }
  }

  lemma RunsAgree(
      lint: Linter, content: string, includeUnsafe: bool,
      fixed: string, total: nat, texts: seq<string>,
      fixed': string, total': nat, texts': seq<string>)
    requires FixedUp(lint, content, includeUnsafe, fixed, total, texts)
    requires FixedUp(lint, content, includeUnsafe, fixed', total', texts')
    requires |texts| <= |texts'|
    ensures texts == texts'
  {
    forall n | 0 <= n < |texts| ensures texts[n] == texts'[n] {
      TracesAgree(lint, includeUnsafe, texts, texts', n);
    }
    assert |texts| < |texts'| ==> StepsAt(lint, includeUnsafe, texts', |texts| - 1);
    SettledIffNoRound(lint, fixed, includeUnsafe);
  }
}
