/** What an interleaving of handles on the shared parse cache leaves behind, told from its actions. */
module ParseHistory {
  import opened Common
  import opened Edits
  import opened ParseCache

  // `ParseCache` says what one step does to the shared state. Here the state a
  // run ends in is read off the actions alone: what was last written, last
  // staged and last stored, and what each parse was therefore made from.

  /** Action `i` is the last to write a text to `file`. */
  predicate LastSetsText(actions: seq<Action>, i: nat, file: FileKey) {
    && i < |actions| && actions[i].SetText? && actions[i].file == file
    && forall j :: i < j < |actions| && actions[j].SetText? ==> actions[j].file != file
  }

  predicate LastSetsMarkdown(actions: seq<Action>, i: nat, file: FileKey) {
    && i < |actions| && actions[i].SetMarkdown? && actions[i].file == file
    && forall j :: i < j < |actions| && actions[j].SetMarkdown? ==> actions[j].file != file
  }

  /** The text last written to `file`, and the flag last set for it, off if it never was. */
  ghost predicate Written(actions: seq<Action>, file: FileKey, input: Input) {
    && (exists i: nat :: LastSetsText(actions, i, file) && actions[i].text == input.text)
    && (input.markdown <==> exists i: nat :: LastSetsMarkdown(actions, i, file) && actions[i].markdown)
  }

  lemma LastTextStep(actions: seq<Action>, a: Action, file: FileKey, i: nat)
    ensures LastSetsText(actions + [a], i, file) <==>
      if a.SetText? && a.file == file then i == |actions| else LastSetsText(actions, i, file)
  {
    assert (actions + [a])[|actions|] == a;
    assert forall j :: 0 <= j < |actions| ==> (actions + [a])[j] == actions[j];
  }

  lemma LastMarkdownStep(actions: seq<Action>, a: Action, file: FileKey, i: nat)
    ensures LastSetsMarkdown(actions + [a], i, file) <==>
      if a.SetMarkdown? && a.file == file then i == |actions| else LastSetsMarkdown(actions, i, file)
  {
    assert (actions + [a])[|actions|] == a;
    assert forall j :: 0 <= j < |actions| ==> (actions + [a])[j] == actions[j];
  }

  lemma WrittenStep(actions: seq<Action>, a: Action, file: FileKey, input: Input)
    ensures Written(actions + [a], file, input) <==>
      match a
      case SetText(f, text) =>
        if f == file then text == input.text && FlagIs(actions, file, input.markdown)
        else Written(actions, file, input)
      case SetMarkdown(f, markdown) =>
        if f == file then markdown == input.markdown && TextIs(actions, file, input.text)
        else Written(actions, file, input)
      case _ => Written(actions, file, input)
  {
    forall i: nat
      ensures LastSetsText(actions + [a], i, file) <==>
        if a.SetText? && a.file == file then i == |actions| else LastSetsText(actions, i, file)
      ensures LastSetsMarkdown(actions + [a], i, file) <==>
        if a.SetMarkdown? && a.file == file then i == |actions| else LastSetsMarkdown(actions, i, file)
    {
      LastTextStep(actions, a, file, i);
      LastMarkdownStep(actions, a, file, i);
    }
    assert forall i: nat :: i < |actions| ==> (actions + [a])[i] == actions[i];
    assert a.SetText? && a.file == file ==> LastSetsText(actions + [a], |actions|, file);
    assert a.SetMarkdown? && a.file == file ==> LastSetsMarkdown(actions + [a], |actions|, file);
  }

  ghost predicate TextIs(actions: seq<Action>, file: FileKey, text: Text) {
    exists i: nat :: LastSetsText(actions, i, file) && actions[i].text == text
  }

  ghost predicate FlagIs(actions: seq<Action>, file: FileKey, markdown: bool) {
    markdown <==> exists i: nat :: LastSetsMarkdown(actions, i, file) && actions[i].markdown
  }

  /** A run, its last action split off. */
  lemma RunStep<Doc>(engine: Engine<Doc>, actions: seq<Action>)
    requires |actions| > 0 && Run(engine, actions).Some?
    ensures var init, last := actions[..|actions| - 1], actions[|actions| - 1];
      && init + [last] == actions
      && Run(engine, init).Some? && Enabled(Run(engine, init).value, last)
      && Run(engine, actions).value == Next(engine, Run(engine, init).value, last)
  {
  }

  /**
   * Nothing stands in the way of an interleaving but this: a flag is set and a
   * parse begun for a tracked file only, a parse begins once, and it takes,
   * computes, counts twice and stores in that order.
   */
  lemma RunsExtend<Doc>(engine: Engine<Doc>, actions: seq<Action>, a: Action)
    ensures Run(engine, []) == Some(Initial())
    ensures Run(engine, actions + [a]).Some? <==>
      && Run(engine, actions).Some?
      && var s := Run(engine, actions).value;
         match a
         case SetText(_, _) => true
         case StageEdits(_, _) => true
         case SetMarkdown(file, _) => file in s.inputs
         case Begin(task, file) => task !in s.tasks && file in s.inputs
         case TakePending(task) => task in s.tasks && s.tasks[task].Reading?
         case Compute(task) => task in s.tasks && s.tasks[task].Holding?
         case CountHit(task) => task in s.tasks && s.tasks[task].Computed?
         case CountPrecise(task) => task in s.tasks && s.tasks[task].HitCounted?
         case Store(task) => task in s.tasks && s.tasks[task].PreciseCounted?
  {
    assert (actions + [a])[..|actions|] == actions;
  }

  /** What a handle reads is what was last written: an input is there exactly as the actions left it. */
  lemma {:induction false} InputsAreWhatWasWritten<Doc>(
      engine: Engine<Doc>, actions: seq<Action>, file: FileKey, input: Input)
    requires Run(engine, actions).Some?
    ensures var s := Run(engine, actions).value;
      Written(actions, file, input) <==> file in s.inputs && s.inputs[file] == input
    ensures file !in Run(engine, actions).value.inputs ==> FlagIs(actions, file, false)
    decreases |actions|
  {
    if |actions| > 0 {
      RunStep(engine, actions);
      var init, last := actions[..|actions| - 1], actions[|actions| - 1];
      var before := Run(engine, init).value;
      WrittenStep(init, last, file, input);
      InputsAreWhatWasWritten(engine, init, file, input);
      if file in before.inputs {
        InputsAreWhatWasWritten(engine, init, file, before.inputs[file]);
      }
      forall i: nat {
        LastMarkdownStep(init, last, file, i);
      }
    }
  }

  // --- What each parse read ----------------------------------------------------------

  predicate Begins(actions: seq<Action>, b: nat, task: nat, file: FileKey) {
    b < |actions| && actions[b] == Begin(task, file)
  }

  lemma BeginsStep(actions: seq<Action>, a: Action, b: nat, task: nat, file: FileKey)
    ensures Begins(actions + [a], b, task, file)
       <==> Begins(actions, b, task, file) || (b == |actions| && a == Begin(task, file))
  {
    if b < |actions| {
      assert (actions + [a])[b] == actions[b];
    }
  }

  /** A parse begins once, and holds what was last written to its file when it began. */
  lemma {:induction false} TasksReadWhatWasWritten<Doc>(engine: Engine<Doc>, actions: seq<Action>, task: nat)
    requires Run(engine, actions).Some?
    ensures var s := Run(engine, actions).value;
      && (task in s.tasks <==> exists b: nat, file :: Begins(actions, b, task, file))
      && (forall b: nat, file :: Begins(actions, b, task, file) ==>
            task in s.tasks && s.tasks[task].file == file && Written(actions[..b], file, s.tasks[task].input))
    decreases |actions|
  {
    if |actions| > 0 {
      RunStep(engine, actions);
      var init, last := actions[..|actions| - 1], actions[|actions| - 1];
      var before, s := Run(engine, init).value, Run(engine, actions).value;
      TasksReadWhatWasWritten(engine, init, task);
      if last.Begin? && last.task == task {
        InputsAreWhatWasWritten(engine, init, last.file, before.inputs[last.file]);
        assert Begins(actions, |init|, task, last.file);
      }
      forall b: nat, file
        ensures Begins(actions, b, task, file)
           <==> Begins(init, b, task, file) || (b == |init| && last == Begin(task, file))
      {
        BeginsStep(init, last, b, task, file);
      }
      forall b: nat, file | Begins(actions, b, task, file)
        ensures task in s.tasks && s.tasks[task].file == file && Written(actions[..b], file, s.tasks[task].input)
      {
        assert actions[..b] == init[..b];
        if b == |init| {
          assert actions[..b] == init;
        }
      }
    }
  }

  // --- What is staged, and who takes it ------------------------------------------------

  /** Action `i` hands the edits staged for `file` to a parse of it. */
  ghost predicate Takes(actions: seq<Action>, i: nat, file: FileKey) {
    && i < |actions| && actions[i].TakePending?
    && exists b: nat :: b < i && Begins(actions, b, actions[i].task, file)
  }

  predicate Stages(actions: seq<Action>, i: nat, file: FileKey) {
    i < |actions| && actions[i].StageEdits? && actions[i].file == file
  }

  /** Action `i` staged edits for `file`; since then nothing was staged for it and no parse of it took them. */
  ghost predicate LastStages(actions: seq<Action>, i: nat, file: FileKey) {
    && Stages(actions, i, file) && actions[i].edits != []
    && forall j: nat :: i < j ==> !Stages(actions, j, file) && !Takes(actions, j, file)
  }

  /** The edits waiting for a parse of `file`, if any. */
  ghost predicate Waiting(actions: seq<Action>, file: FileKey, pending: Option<seq<Edit>>) {
    match pending
    case Some(edits) => exists i: nat :: LastStages(actions, i, file) && actions[i].edits == edits
    case None => forall i: nat :: !LastStages(actions, i, file)
  }

  lemma TakesStep(actions: seq<Action>, a: Action, i: nat, file: FileKey)
    ensures Takes(actions + [a], i, file) <==>
      if i == |actions| then a.TakePending? && exists b: nat :: Begins(actions, b, a.task, file)
      else Takes(actions, i, file)
    ensures Stages(actions + [a], i, file) <==>
      if i == |actions| then a.StageEdits? && a.file == file else Stages(actions, i, file)
  {
    assert i < |actions| ==> (actions + [a])[i] == actions[i];
    assert (actions + [a])[|actions|] == a;
    if i <= |actions| && (actions + [a])[i].TakePending? {
      forall b: nat
        ensures Begins(actions + [a], b, (actions + [a])[i].task, file) <==>
          Begins(actions, b, (actions + [a])[i].task, file)
          || (b == |actions| && a == Begin((actions + [a])[i].task, file))
      {
        BeginsStep(actions, a, b, (actions + [a])[i].task, file);
      }
    }
  }

  lemma LastStagesStep(actions: seq<Action>, a: Action, i: nat, file: FileKey)
    ensures LastStages(actions + [a], i, file) <==>
      if i == |actions| then a.StageEdits? && a.file == file && a.edits != []
      else
        && LastStages(actions, i, file) && !(a.StageEdits? && a.file == file)
        && !Takes(actions + [a], |actions|, file)
  {
    forall j: nat
      ensures j != |actions| ==> (Takes(actions + [a], j, file) <==> Takes(actions, j, file))
      ensures Stages(actions + [a], j, file) <==>
        if j == |actions| then a.StageEdits? && a.file == file else Stages(actions, j, file)
    {
      TakesStep(actions, a, j, file);
    }
    assert i < |actions| ==> (actions + [a])[i] == actions[i];
    if i < |actions| && LastStages(actions + [a], i, file) {
      assert !Stages(actions + [a], |actions|, file);
      assert forall j: nat :: i < j < |actions| ==>
        !Stages(actions + [a], j, file) && !Takes(actions + [a], j, file);
      assert forall j: nat :: j >= |actions| ==> !Stages(actions, j, file) && !Takes(actions, j, file);
    }
  }

  function StagedFor<Doc>(s: State<Doc>, file: FileKey): Option<seq<Edit>> {
    if file in s.staged then Some(s.staged[file].edits) else None
  }

  /** In a run the last action takes from `file` exactly when it is a take by a parse of `file`. */
  lemma TakesLast<Doc>(engine: Engine<Doc>, init: seq<Action>, a: Action, file: FileKey)
    requires Run(engine, init).Some? && Enabled(Run(engine, init).value, a)
    ensures Takes(init + [a], |init|, file)
       <==> a.TakePending? && Run(engine, init).value.tasks[a.task].file == file
  {
    TakesStep(init, a, |init|, file);
    if a.TakePending? {
      TasksReadWhatWasWritten(engine, init, a.task);
    }
  }

  /** What waits for a file is what was last staged for it and has not been taken since. */
  lemma {:induction false} StagedIsWhatWaits<Doc>(engine: Engine<Doc>, actions: seq<Action>, file: FileKey)
    requires Run(engine, actions).Some?
    ensures forall pending :: Waiting(actions, file, pending) <==> pending == StagedFor(Run(engine, actions).value, file)
    decreases |actions|
  {
    if |actions| > 0 {
      RunStep(engine, actions);
      var init, last := actions[..|actions| - 1], actions[|actions| - 1];
      StagedIsWhatWaits(engine, init, file);
      TakesLast(engine, init, last, file);
      forall pending
        ensures Waiting(actions, file, pending) <==> pending == StagedFor(Run(engine, actions).value, file)
      {
        WaitingStep(init, last, file, pending);
        assert Waiting(init, file, pending) <==> pending == StagedFor(Run(engine, init).value, file);
      }
    }
  }

  lemma WaitingStep(actions: seq<Action>, a: Action, file: FileKey, pending: Option<seq<Edit>>)
    ensures Waiting(actions + [a], file, pending) <==>
      if a.StageEdits? && a.file == file then pending == if a.edits == [] then None else Some(a.edits)
      else if Takes(actions + [a], |actions|, file) then pending == None
      else Waiting(actions, file, pending)
  {
    forall i: nat
      ensures LastStages(actions + [a], i, file) <==>
        if i == |actions| then a.StageEdits? && a.file == file && a.edits != []
        else
          && LastStages(actions, i, file) && !(a.StageEdits? && a.file == file)
          && !Takes(actions + [a], |actions|, file)
    {
      LastStagesStep(actions, a, i, file);
    }
    assert forall i: nat :: i < |actions| ==> (actions + [a])[i] == actions[i];
    assert (actions + [a])[|actions|] == a;
    if a.StageEdits? && a.file == file && a.edits != [] {
      assert LastStages(actions + [a], |actions|, file);
    }
  }

  // --- What is cached ------------------------------------------------------------------

  /** Action `i` stores a parse of `file`. */
  ghost predicate Stores(actions: seq<Action>, i: nat, file: FileKey) {
    && i < |actions| && actions[i].Store?
    && exists b: nat :: b < i && Begins(actions, b, actions[i].task, file)
  }

  ghost predicate LastStores(actions: seq<Action>, i: nat, file: FileKey) {
    Stores(actions, i, file) && forall j: nat :: i < j ==> !Stores(actions, j, file)
  }

  lemma StoresStep(actions: seq<Action>, a: Action, i: nat, file: FileKey)
    ensures Stores(actions + [a], i, file) <==>
      if i == |actions| then a.Store? && exists b: nat :: Begins(actions, b, a.task, file)
      else Stores(actions, i, file)
  {
    assert i < |actions| ==> (actions + [a])[i] == actions[i];
    assert (actions + [a])[|actions|] == a;
    if i <= |actions| && (actions + [a])[i].Store? {
      forall b: nat
        ensures Begins(actions + [a], b, (actions + [a])[i].task, file) <==>
          Begins(actions, b, (actions + [a])[i].task, file)
          || (b == |actions| && a == Begin((actions + [a])[i].task, file))
      {
        BeginsStep(actions, a, b, (actions + [a])[i].task, file);
      }
    }
  }

  lemma StoresLast<Doc>(engine: Engine<Doc>, init: seq<Action>, a: Action, file: FileKey)
    requires Run(engine, init).Some? && Enabled(Run(engine, init).value, a)
    ensures Stores(init + [a], |init|, file)
       <==> a.Store? && Run(engine, init).value.tasks[a.task].file == file
  {
    StoresStep(init, a, |init|, file);
    if a.Store? {
      TasksReadWhatWasWritten(engine, init, a.task);
    }
  }

  /** The last parse of the file to be stored was of this text under this flag. */
  ghost predicate LastStoredFrom(actions: seq<Action>, file: FileKey, input: Input) {
    exists i: nat, b: nat :: StoredFrom(actions, i, b, file, input)
  }

  ghost predicate StoredFrom(actions: seq<Action>, i: nat, b: nat, file: FileKey, input: Input) {
    LastStores(actions, i, file) && Begins(actions, b, actions[i].task, file) && Written(actions[..b], file, input)
  }

  /** A file has a cached parse as soon as a parse of it was stored, of the text the last of those began with. */
  lemma {:induction false} CachedIsWhatWasStored<Doc>(engine: Engine<Doc>, actions: seq<Action>, file: FileKey)
    requires Run(engine, actions).Some?
    ensures var previous := Run(engine, actions).value.previous;
      if file in previous then LastStoredFrom(actions, file, Input(previous[file].text, previous[file].markdown))
      else forall i: nat :: !Stores(actions, i, file)
    decreases |actions|
  {
    if |actions| > 0 {
      RunStep(engine, actions);
      var init, last := actions[..|actions| - 1], actions[|actions| - 1];
      CachedIsWhatWasStored(engine, init, file);
      StoresLast(engine, init, last, file);
      forall i: nat
        ensures i != |init| ==> (Stores(actions, i, file) <==> Stores(init, i, file))
      {
        StoresStep(init, last, i, file);
      }
      var previous := Run(engine, actions).value.previous;
      if Stores(actions, |init|, file) {
        TasksReadWhatWasWritten(engine, actions, last.task);
        var b: nat :| b < |init| && Begins(actions, b, last.task, file);
        assert StoredFrom(actions, |init|, b, file, Input(previous[file].text, previous[file].markdown));
      } else if file in previous {
        var input := Input(previous[file].text, previous[file].markdown);
        var i: nat, b: nat :| StoredFrom(init, i, b, file, input);
        assert actions[i] == init[i] && actions[..b] == init[..b];
        BeginsStep(init, last, b, init[i].task, file);
        assert StoredFrom(actions, i, b, file, input);
      }
    }
  }

  // --- How each parse was decided --------------------------------------------------------

  /** The parse took `pending` at action `k`. */
  ghost predicate TookAt(actions: seq<Action>, k: nat, task: nat, file: FileKey, pending: Option<seq<Edit>>) {
    k < |actions| && actions[k] == TakePending(task) && Waiting(actions[..k], file, pending)
  }

  /** The parse was decided at action `c`, from the edits it took at `k` and what was cached at `c`. */
  ghost predicate DecidedAt<Doc>(
      engine: Engine<Doc>, actions: seq<Action>, k: nat, c: nat, task: nat, file: FileKey,
      pending: Option<seq<Edit>>, input: Input, outcome: Outcome<Doc>)
  {
    && TookAt(actions, k, task, file, pending)
    && k < c < |actions| && actions[c] == Compute(task) && Run(engine, actions[..c]).Some?
    && outcome == Decide(engine, CachedFor(Run(engine, actions[..c]).value, file), pending, input)
  }

  function CachedFor<Doc>(s: State<Doc>, file: FileKey): Option<PrevParse<Doc>> {
    if file in s.previous then Some(s.previous[file]) else None
  }

  ghost predicate WasDecided<Doc>(
      engine: Engine<Doc>, actions: seq<Action>, task: nat, file: FileKey, input: Input, outcome: Outcome<Doc>)
  {
    exists k: nat, c: nat, pending :: DecidedAt(engine, actions, k, c, task, file, pending, input, outcome)
  }

  lemma DecidedStep<Doc>(
      engine: Engine<Doc>, actions: seq<Action>, a: Action, task: nat, file: FileKey, input: Input,
      outcome: Outcome<Doc>)
    requires WasDecided(engine, actions, task, file, input, outcome)
    ensures WasDecided(engine, actions + [a], task, file, input, outcome)
  {
    var k: nat, c: nat, pending :| DecidedAt(engine, actions, k, c, task, file, pending, input, outcome);
    assert (actions + [a])[..k] == actions[..k] && (actions + [a])[..c] == actions[..c];
    assert DecidedAt(engine, actions + [a], k, c, task, file, pending, input, outcome);
  }

  lemma TookStep(
      actions: seq<Action>, a: Action, k: nat, task: nat, file: FileKey, pending: Option<seq<Edit>>)
    requires TookAt(actions, k, task, file, pending)
    ensures TookAt(actions + [a], k, task, file, pending)
  {
    assert (actions + [a])[..k] == actions[..k];
  }

  /** Every parse took what waited for its file when it took, and every outcome is the decision on that. */
  lemma {:induction false} OutcomesAreDecided<Doc>(engine: Engine<Doc>, actions: seq<Action>, task: nat)
    requires Run(engine, actions).Some? && task in Run(engine, actions).value.tasks
    ensures var t := Run(engine, actions).value.tasks[task];
      && (t.Holding? ==> exists k: nat :: TookAt(actions, k, task, t.file, t.pending))
      && (HasOutcome(t) ==> WasDecided(engine, actions, task, t.file, t.input, t.outcome))
    decreases |actions|
  {
    RunStep(engine, actions);
    var init, last := actions[..|actions| - 1], actions[|actions| - 1];
    var before, after := Run(engine, init).value, Run(engine, actions).value;
    var t := after.tasks[task];
    if task in before.tasks {
      OutcomesAreDecided(engine, init, task);
      var was := before.tasks[task];
      if HasOutcome(was) {
        DecidedStep(engine, init, last, task, was.file, was.input, was.outcome);
      } else if was.Holding? {
        var k: nat :| TookAt(init, k, task, was.file, was.pending);
        TookStep(init, last, k, task, was.file, was.pending);
        if t.Computed? {
          assert actions[..|init|] == init;
          assert DecidedAt(engine, actions, k, |init|, task, t.file, was.pending, t.input, t.outcome);
        }
      } else if t.Holding? {
        assert actions[..|init|] == init;
        StagedIsWhatWaits(engine, init, t.file);
        assert TookAt(actions, |init|, task, t.file, t.pending);
      }
    }
  }

  lemma {:induction false} RunPrefix<Doc>(engine: Engine<Doc>, actions: seq<Action>, n: nat)
    requires n <= |actions| && Run(engine, actions).Some?
    ensures Run(engine, actions[..n]).Some?
    decreases |actions|
  {
    if n < |actions| {
      RunStep(engine, actions);
      assert actions[..|actions| - 1][..n] == actions[..n];
      RunPrefix(engine, actions[..|actions| - 1], n);
    } else {
      assert actions[..n] == actions;
    }
  }

  /**
   * Whatever the handles did in between, a parse that has its outcome has the
   * full parse of the text last written to its file, under the flag last set for
   * it, when it began.
   */
  lemma ParseIsOfWhatWasWritten<Doc>(
      engine: Engine<Doc>, actions: seq<Action>, b: nat, task: nat, file: FileKey, input: Input)
    requires Faithful(engine) && Run(engine, actions).Some?
    requires Begins(actions, b, task, file)
    ensures var s := Run(engine, actions).value;
      && task in s.tasks && s.tasks[task].file == file
      && (Written(actions[..b], file, input) <==> s.tasks[task].input == input)
      && (HasOutcome(s.tasks[task]) && Written(actions[..b], file, input) ==>
            s.tasks[task].outcome.doc == engine.parse(input.text, input.markdown))
  {
    RunKeepsInvariant(engine, actions);
    TasksReadWhatWasWritten(engine, actions, task);
    RunPrefix(engine, actions, b);
    InputsAreWhatWasWritten(engine, actions[..b], file, input);
    InputsAreWhatWasWritten(engine, actions[..b], file, Run(engine, actions).value.tasks[task].input);
  }

  /** What is cached for a file is the full parse of what was last written when the last parse to be stored began. */
  lemma CacheIsOfWhatWasWritten<Doc>(
      engine: Engine<Doc>, actions: seq<Action>, i: nat, b: nat, file: FileKey, input: Input)
    requires Faithful(engine) && Run(engine, actions).Some?
    requires LastStores(actions, i, file) && Begins(actions, b, actions[i].task, file)
    requires Written(actions[..b], file, input)
    ensures var previous := Run(engine, actions).value.previous;
      && file in previous
      && previous[file] == PrevParse(input.text, engine.parse(input.text, input.markdown), input.markdown)
  {
    RunKeepsInvariant(engine, actions);
    CachedIsWhatWasStored(engine, actions, file);
    var previous := Run(engine, actions).value.previous;
    var read := Input(previous[file].text, previous[file].markdown);
    var i': nat, b': nat :| StoredFrom(actions, i', b', file, read);
    assert i' == i;
    ParseIsOfWhatWasWritten(engine, actions, b, actions[i].task, file, input);
    ParseIsOfWhatWasWritten(engine, actions, b', actions[i].task, file, read);
  }

  // --- Counting --------------------------------------------------------------------------

  predicate Hit<Doc>(t: Task<Doc>) {
    (t.HitCounted? || t.PreciseCounted? || t.Done?) && t.outcome.incremental
  }

  predicate PreciseHit<Doc>(t: Task<Doc>) {
    (t.PreciseCounted? || t.Done?) && t.outcome.precise
  }

  function Hits<Doc>(tasks: map<nat, Task<Doc>>): set<nat> {
    set t | t in tasks && Hit(tasks[t])
  }

  function PreciseHits<Doc>(tasks: map<nat, Task<Doc>>): set<nat> {
    set t | t in tasks && PreciseHit(tasks[t])
  }

  lemma SizeAfter(before: set<nat>, after: set<nat>, x: nat)
    requires forall y :: y != x ==> (y in before <==> y in after)
    ensures |after| == |before| + (if x in after then 1 else 0) - (if x in before then 1 else 0)
  {
    assert after - {x} == before - {x};
    assert x in after ==> |after - {x}| == |after| - 1;
    assert x !in after ==> after - {x} == after;
    assert x in before ==> |before - {x}| == |before| - 1;
    assert x !in before ==> before - {x} == before;
  }

  lemma CountStep<Doc>(engine: Engine<Doc>, s: State<Doc>, a: Action)
    requires Enabled(s, a) && s.hits == |Hits(s.tasks)| && s.preciseHits == |PreciseHits(s.tasks)|
    ensures var s' := Next(engine, s, a); s'.hits == |Hits(s'.tasks)| && s'.preciseHits == |PreciseHits(s'.tasks)|
  {
    var s' := Next(engine, s, a);
    if a.SetText? || a.SetMarkdown? || a.StageEdits? {
      assert s'.tasks == s.tasks;
    } else {
      var t := s'.tasks[a.task];
      assert s'.tasks == s.tasks[a.task := t];
      SizeAfter(Hits(s.tasks), Hits(s'.tasks), a.task);
      SizeAfter(PreciseHits(s.tasks), PreciseHits(s'.tasks), a.task);
    }
  }

  /** The counters are the numbers of incremental and of precise parses past their counting. */
  lemma {:induction false} CountersAreExact<Doc>(engine: Engine<Doc>, actions: seq<Action>)
    requires Run(engine, actions).Some?
    ensures var s := Run(engine, actions).value;
      s.hits == |Hits(s.tasks)| && s.preciseHits == |PreciseHits(s.tasks)|
    decreases |actions|
  {
    if |actions| > 0 {
      RunStep(engine, actions);
      CountersAreExact(engine, actions[..|actions| - 1]);
      CountStep(engine, Run(engine, actions[..|actions| - 1]).value, actions[|actions| - 1]);
    }
  }
}
