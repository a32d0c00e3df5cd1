/** The shared parse cache of `src/incremental.rs`. */
module ParseCache {
  import opened Common
  import opened Edits

  // A shared map of previous parses and a shared slot of staged edits are read
  // and written by several handles on one database. Whatever they hold, a parse
  // is a full parse.

  type FileKey = nat

  /**
   * The parser, and the ladder of reparse strategies that may reuse an old
   * document. A document is the tree together with its diagnostics.
   */
  datatype Engine<!Doc> = Engine(
    parse: (Text, bool) -> Doc,
    ladder: (Doc, Text, Edit, bool) -> Option<Doc>)

  /** The parser's promise: a strategy that applies returns what a full parse would. */
  ghost predicate Faithful<Doc>(engine: Engine<Doc>) {
    forall text: Text, edit: Edit, markdown: bool :: FaithfulAt(engine, text, edit, markdown)
  }

  ghost predicate FaithfulAt<Doc>(engine: Engine<Doc>, text: Text, edit: Edit, markdown: bool) {
    Fits(edit, text) ==>
      var reparsed := engine.ladder(engine.parse(text, markdown), text, edit, markdown);
      reparsed == None || reparsed == Some(engine.parse(Apply(edit, text), markdown))
  }

  /** A ladder that never applies keeps it, and so does one that parses from scratch. */
  lemma ScratchIsFaithful<Doc>(parse: (Text, bool) -> Doc)
    ensures Faithful(Engine(parse, (doc: Doc, text: Text, edit: Edit, markdown: bool) => None))
    ensures Faithful(Engine(parse, (doc: Doc, text: Text, edit: Edit, markdown: bool) =>
      if Fits(edit, text) then Some(parse(Apply(edit, text), markdown)) else None))
  {
  }

  function Reparse<Doc>(engine: Engine<Doc>, doc: Doc, text: Text, edit: Edit, markdown: bool): Option<Doc> {
    if !Fits(edit, text) then None else engine.ladder(doc, text, edit, markdown)
  }

  /** One reparse per edit, each from the document before it; the last must produce `target`. */
  function ReparseChain<Doc>(
      engine: Engine<Doc>, doc: Doc, text: Text, edits: seq<Edit>, target: Text, markdown: bool): Option<Doc>
    decreases |edits|
  {
    if |edits| == 0 then None
    else if |edits| == 1 then
      if Produces(edits[0], text, target) then Reparse(engine, doc, text, edits[0], markdown) else None
    else
      match Reparse(engine, doc, text, edits[0], markdown)
      case Some(next) =>
        if Fits(edits[0], text) then
          ReparseChain(engine, next, Apply(edits[0], text), edits[1..], target, markdown)
        else None
      case None => None
  }

  method ReparseEdits<Doc>(
      engine: Engine<Doc>, oldDoc: Doc, oldText: Text, edits: seq<Edit>, target: Text, markdown: bool)
    returns (result: Option<Doc>)
    ensures result == ReparseChain(engine, oldDoc, oldText, edits, target, markdown)
  {
    if |edits| == 0 {
      return None;
    }
    var doc, text := oldDoc, oldText;
    assert edits[0..] == edits;
    for i := 0 to |edits| - 1
      invariant ReparseChain(engine, oldDoc, oldText, edits, target, markdown)
             == ReparseChain(engine, doc, text, edits[i..], target, markdown)
    {
      assert edits[i..][0] == edits[i] && edits[i..][1..] == edits[i + 1..];
      var next := Reparse(engine, doc, text, edits[i], markdown);
      if next.None? {
        return None;
      }
      text := Apply(edits[i], text);
      doc := next.value;
    }
    var last := edits[|edits| - 1];
    if !Produces(last, text, target) {
      return None;
    }
    result := Reparse(engine, doc, text, last, markdown);
  }

  lemma {:induction false} ChainIsFullParse<Doc>(
      engine: Engine<Doc>, text: Text, edits: seq<Edit>, target: Text, markdown: bool)
    requires Faithful(engine)
    ensures var result := ReparseChain(engine, engine.parse(text, markdown), text, edits, target, markdown);
      result.Some? ==> result.value == engine.parse(target, markdown) && ApplyAll(text, edits) == Some(target)
    decreases |edits|
  {
    if |edits| > 0 {
      assert FaithfulAt(engine, text, edits[0], markdown);
    }
    if |edits| == 1 {
      ProducesIffApplies(edits[0], text, target);
      assert edits[1..] == [];
    } else if |edits| > 1 && Fits(edits[0], text) {
      ChainIsFullParse(engine, Apply(edits[0], text), edits[1..], target, markdown);
    }
  }

  /** The strategies accept edit `i` of the chain, on the full parse of the text it applies to. */
  predicate StepAccepted<Doc>(engine: Engine<Doc>, text: Text, edits: seq<Edit>, i: nat, markdown: bool) {
    && i < |edits|
    && match ApplyAll(text, edits[..i])
       case Some(before) => engine.ladder(engine.parse(before, markdown), before, edits[i], markdown).Some?
       case None => false
  }

  lemma StepOfRest<Doc>(engine: Engine<Doc>, text: Text, edits: seq<Edit>, i: nat, markdown: bool)
    requires i + 1 < |edits| && Fits(edits[0], text)
    ensures StepAccepted(engine, text, edits, i + 1, markdown)
       <==> StepAccepted(engine, Apply(edits[0], text), edits[1..], i, markdown)
  {
    assert edits[..i + 1][1..] == edits[1..][..i] && edits[..i + 1][0] == edits[0];
  }

  lemma StepsOfRest<Doc>(engine: Engine<Doc>, text: Text, edits: seq<Edit>, markdown: bool)
    requires |edits| > 0 && Fits(edits[0], text)
    ensures (forall i: nat :: i < |edits| ==> StepAccepted(engine, text, edits, i, markdown)) <==>
      && StepAccepted(engine, text, edits, 0, markdown)
      && forall i: nat :: i < |edits[1..]| ==> StepAccepted(engine, Apply(edits[0], text), edits[1..], i, markdown)
  {
    forall i: nat | 0 < i < |edits|
      ensures StepAccepted(engine, text, edits, i, markdown)
         <==> StepAccepted(engine, Apply(edits[0], text), edits[1..], i - 1, markdown)
    {
      StepOfRest(engine, text, edits, i - 1, markdown);
    }
    if forall i: nat :: i < |edits| ==> StepAccepted(engine, text, edits, i, markdown) {
      forall i: nat | i < |edits[1..]|
        ensures StepAccepted(engine, Apply(edits[0], text), edits[1..], i, markdown)
      {
        assert StepAccepted(engine, text, edits, i + 1, markdown);
      }
    }
  }

  /** A chain is accepted exactly when it leads to the target and every one of its steps is accepted. */
  lemma {:induction false} ChainAcceptedIff<Doc>(
      engine: Engine<Doc>, text: Text, edits: seq<Edit>, target: Text, markdown: bool)
    requires Faithful(engine)
    ensures ReparseChain(engine, engine.parse(text, markdown), text, edits, target, markdown).Some? <==>
      && edits != [] && ApplyAll(text, edits) == Some(target)
      && forall i: nat :: i < |edits| ==> StepAccepted(engine, text, edits, i, markdown)
    decreases |edits|
  {
    if |edits| > 0 && Fits(edits[0], text) {
      assert FaithfulAt(engine, text, edits[0], markdown);
      assert edits[..0] == [];
      assert StepAccepted(engine, text, edits, 0, markdown)
        <==> engine.ladder(engine.parse(text, markdown), text, edits[0], markdown).Some?;
      if |edits| == 1 {
        ProducesIffApplies(edits[0], text, target);
        assert edits[1..] == [];
      } else {
        ChainAcceptedIff(engine, Apply(edits[0], text), edits[1..], target, markdown);
        StepsOfRest(engine, text, edits, markdown);
      }
    } else if |edits| == 1 {
      ProducesIffApplies(edits[0], text, target);
    }
  }

  // --- One parse ---------------------------------------------------------------

  datatype Input = Input(text: Text, markdown: bool)

  datatype PrevParse<Doc> = PrevParse(text: Text, doc: Doc, markdown: bool)

  datatype Outcome<Doc> = Outcome(doc: Doc, incremental: bool, precise: bool)

  ghost predicate Sound<Doc>(engine: Engine<Doc>, prev: PrevParse<Doc>) {
    prev.doc == engine.parse(prev.text, prev.markdown)
  }

  /** What `parsed_document` decides from the previous parse and the staged edits it was handed. */
  function Decide<Doc>(
      engine: Engine<Doc>, prev: Option<PrevParse<Doc>>, pending: Option<seq<Edit>>, input: Input): Outcome<Doc>
  {
    var full := Outcome(engine.parse(input.text, input.markdown), false, false);
    if prev.None? || prev.value.text == input.text || prev.value.markdown != input.markdown then full
    else
      var base := prev.value;
      var precise :=
        if pending.Some? then
          ReparseChain(engine, base.doc, base.text, pending.value, input.text, input.markdown)
        else None;
      if precise.Some? then Outcome(precise.value, true, true)
      else
        match Reparse(engine, base.doc, base.text, Diff(base.text, input.text), input.markdown)
        case Some(doc) => Outcome(doc, true, false)
        case None => full
  }

  /** Whatever is cached or staged, the outcome is the full parse of the input. */
  lemma DecideIsFullParse<Doc>(
      engine: Engine<Doc>, prev: Option<PrevParse<Doc>>, pending: Option<seq<Edit>>, input: Input)
    requires Faithful(engine)
    requires prev.Some? ==> Sound(engine, prev.value)
    ensures Decide(engine, prev, pending, input).doc == engine.parse(input.text, input.markdown)
    ensures Decide(engine, prev, pending, input).precise ==>
              && Decide(engine, prev, pending, input).incremental
              && prev.Some? && pending.Some?
              && ApplyAll(prev.value.text, pending.value) == Some(input.text)
  {
    if prev.Some? {
      DiffTransforms(prev.value.text, input.text);
      assert FaithfulAt(engine, prev.value.text, Diff(prev.value.text, input.text), input.markdown);
      if pending.Some? {
        ChainIsFullParse(engine, prev.value.text, pending.value, input.text, prev.value.markdown);
      }
    }
  }

  /**
   * When an old parse is reused at all: it is there, under the same flag and of
   * another text; and either the staged edits lead to the new text by steps the
   * strategies accept, or they accept the one edit recovered from the two texts.
   */
  lemma ReusesIff<Doc>(
      engine: Engine<Doc>, prev: Option<PrevParse<Doc>>, pending: Option<seq<Edit>>, input: Input)
    requires Faithful(engine)
    requires prev.Some? ==> Sound(engine, prev.value)
    ensures Decide(engine, prev, pending, input).precise <==>
      && prev.Some? && prev.value.markdown == input.markdown && prev.value.text != input.text
      && pending.Some? && pending.value != [] && ApplyAll(prev.value.text, pending.value) == Some(input.text)
      && forall i: nat :: i < |pending.value| ==>
           StepAccepted(engine, prev.value.text, pending.value, i, input.markdown)
    ensures Decide(engine, prev, pending, input).incremental <==>
      && prev.Some? && prev.value.markdown == input.markdown && prev.value.text != input.text
      && (Decide(engine, prev, pending, input).precise
          || engine.ladder(
               engine.parse(prev.value.text, input.markdown), prev.value.text,
               Diff(prev.value.text, input.text), input.markdown).Some?)
  {
    if prev.Some? {
      DiffTransforms(prev.value.text, input.text);
      if pending.Some? {
        ChainAcceptedIff(engine, prev.value.text, pending.value, input.text, prev.value.markdown);
      }
    }
  }

  // --- Interleaved parses on shared handles --------------------------------------

  /** Staged edits carry a ticket, so that two stagings of equal edits stay apart. */
  datatype Staged = Staged(ticket: nat, edits: seq<Edit>)

  /** How far one running parse has got; other handles may act between any two stages. */
  datatype Task<Doc> =
    | Reading(file: FileKey, input: Input)
    | Holding(file: FileKey, input: Input, pending: Option<seq<Edit>>)
    | Computed(file: FileKey, input: Input, outcome: Outcome<Doc>)
    | HitCounted(file: FileKey, input: Input, outcome: Outcome<Doc>)
    | PreciseCounted(file: FileKey, input: Input, outcome: Outcome<Doc>)
    | Done(file: FileKey, input: Input, outcome: Outcome<Doc>)

  datatype Taken = Taken(ticket: nat, task: nat)

  datatype State<Doc> = State(
    inputs: map<FileKey, Input>,
    previous: map<FileKey, PrevParse<Doc>>,
    staged: map<FileKey, Staged>,
    hits: nat,
    preciseHits: nat,
    tasks: map<nat, Task<Doc>>,
    tickets: nat,
    log: seq<Taken>)

  datatype Action =
    | SetText(file: FileKey, text: Text)
    | SetMarkdown(file: FileKey, markdown: bool)
    | StageEdits(file: FileKey, edits: seq<Edit>)
    | Begin(task: nat, file: FileKey)
    | TakePending(task: nat)
    | Compute(task: nat)
    | CountHit(task: nat)
    | CountPrecise(task: nat)
    | Store(task: nat)

  function Initial<Doc>(): State<Doc> {
    State(map[], map[], map[], 0, 0, map[], 0, [])
  }

  predicate Enabled<Doc>(s: State<Doc>, a: Action) {
    match a
    case SetText(_, _) => true
    case SetMarkdown(file, _) => file in s.inputs
    case StageEdits(_, _) => true
    case Begin(task, file) => task !in s.tasks && file in s.inputs
    case TakePending(task) => task in s.tasks && s.tasks[task].Reading?
    case Compute(task) => task in s.tasks && s.tasks[task].Holding?
    case CountHit(task) => task in s.tasks && s.tasks[task].Computed?
    case CountPrecise(task) => task in s.tasks && s.tasks[task].HitCounted?
    case Store(task) => task in s.tasks && s.tasks[task].PreciseCounted?
  }

  function Next<Doc>(engine: Engine<Doc>, s: State<Doc>, a: Action): State<Doc>
    requires Enabled(s, a)
  {
    match a
    case SetText(file, text) =>
      var markdown := file in s.inputs && s.inputs[file].markdown;
      s.(inputs := s.inputs[file := Input(text, markdown)])
    case SetMarkdown(file, markdown) =>
      s.(inputs := s.inputs[file := Input(s.inputs[file].text, markdown)])
    case StageEdits(file, edits) =>
      if edits == [] then s.(staged := s.staged - {file})
      else s.(staged := s.staged[file := Staged(s.tickets, edits)], tickets := s.tickets + 1)
    case Begin(task, file) =>
      s.(tasks := s.tasks[task := Reading(file, s.inputs[file])])
    case TakePending(task) =>
      var t := s.tasks[task];
      if t.file in s.staged then
        s.(tasks := s.tasks[task := Holding(t.file, t.input, Some(s.staged[t.file].edits))],
           staged := s.staged - {t.file},
           log := s.log + [Taken(s.staged[t.file].ticket, task)])
      else s.(tasks := s.tasks[task := Holding(t.file, t.input, None)])
    case Compute(task) =>
      var t := s.tasks[task];
      var prev := if t.file in s.previous then Some(s.previous[t.file]) else None;
      s.(tasks := s.tasks[task := Computed(t.file, t.input, Decide(engine, prev, t.pending, t.input))])
    case CountHit(task) =>
      var t := s.tasks[task];
      s.(tasks := s.tasks[task := HitCounted(t.file, t.input, t.outcome)],
         hits := s.hits + if t.outcome.incremental then 1 else 0)
    case CountPrecise(task) =>
      var t := s.tasks[task];
      s.(tasks := s.tasks[task := PreciseCounted(t.file, t.input, t.outcome)],
         preciseHits := s.preciseHits + if t.outcome.precise then 1 else 0)
    case Store(task) =>
      var t := s.tasks[task];
      s.(tasks := s.tasks[task := Done(t.file, t.input, t.outcome)],
         previous := s.previous[t.file := PrevParse(t.input.text, t.outcome.doc, t.input.markdown)])
  }

  predicate Owes<Doc>(t: Task<Doc>) {
    t.HitCounted? && t.outcome.precise
  }

  /** Precise parses whose hit is counted and whose precise hit is not yet. */
  function Owing<Doc>(tasks: map<nat, Task<Doc>>): set<nat> {
    set t | t in tasks && Owes(tasks[t])
  }

  predicate HasOutcome<Doc>(t: Task<Doc>) {
    t.Computed? || t.HitCounted? || t.PreciseCounted? || t.Done?
  }

  ghost predicate StoredParsesAreFull<Doc>(engine: Engine<Doc>, s: State<Doc>) {
    forall f :: f in s.previous ==> Sound(engine, s.previous[f])
  }

  ghost predicate OutcomesAreFull<Doc>(engine: Engine<Doc>, s: State<Doc>) {
    forall t :: t in s.tasks && HasOutcome(s.tasks[t]) ==>
      && s.tasks[t].outcome.doc == engine.parse(s.tasks[t].input.text, s.tasks[t].input.markdown)
      && (s.tasks[t].outcome.precise ==> s.tasks[t].outcome.incremental)
  }

  ghost predicate CountersAgree<Doc>(s: State<Doc>) {
    s.preciseHits + |Owing(s.tasks)| <= s.hits
  }

  /** No ticket is staged twice, taken twice, or both taken and still staged. */
  ghost predicate TicketsAreFresh(staged: map<FileKey, Staged>, tickets: nat, log: seq<Taken>) {
    && (forall f :: f in staged ==> staged[f].ticket < tickets)
    && (forall f, g :: f in staged && g in staged && f != g ==> staged[f].ticket != staged[g].ticket)
    && (forall i :: 0 <= i < |log| ==> log[i].ticket < tickets)
    && (forall i, f :: 0 <= i < |log| && f in staged ==> log[i].ticket != staged[f].ticket)
    && (forall i, j :: 0 <= i < j < |log| ==> log[i].ticket != log[j].ticket)
  }

  ghost predicate Invariant<Doc>(engine: Engine<Doc>, s: State<Doc>) {
    && StoredParsesAreFull(engine, s)
    && OutcomesAreFull(engine, s)
    && CountersAgree(s)
    && TicketsAreFresh(s.staged, s.tickets, s.log)
  }

  lemma NextKeepsTickets<Doc>(engine: Engine<Doc>, s: State<Doc>, a: Action)
    requires TicketsAreFresh(s.staged, s.tickets, s.log) && Enabled(s, a)
    ensures var s' := Next(engine, s, a); TicketsAreFresh(s'.staged, s'.tickets, s'.log)
  {
    var s' := Next(engine, s, a);
    if a.StageEdits? {
      StagingIsFresh(s.staged, s.tickets, s.log, a.file, a.edits);
    } else if a.TakePending? && s.tasks[a.task].file in s.staged {
      TakingIsFresh(s.staged, s.tickets, s.log, s.tasks[a.task].file, a.task);
    } else {
      assert s'.staged == s.staged && s'.tickets == s.tickets && s'.log == s.log;
    }
  }

  lemma StagingIsFresh(
      staged: map<FileKey, Staged>, tickets: nat, log: seq<Taken>, file: FileKey, edits: seq<Edit>)
    requires TicketsAreFresh(staged, tickets, log)
    ensures TicketsAreFresh(staged - {file}, tickets, log)
    ensures TicketsAreFresh(staged[file := Staged(tickets, edits)], tickets + 1, log)
  {
  }

  lemma TakingIsFresh(
      staged: map<FileKey, Staged>, tickets: nat, log: seq<Taken>, file: FileKey, task: nat)
    requires TicketsAreFresh(staged, tickets, log) && file in staged
    ensures TicketsAreFresh(staged - {file}, tickets, log + [Taken(staged[file].ticket, task)])
  {
  }

  lemma NextKeepsOutcomes<Doc>(engine: Engine<Doc>, s: State<Doc>, a: Action)
    requires Faithful(engine) && Enabled(s, a)
    requires StoredParsesAreFull(engine, s) && OutcomesAreFull(engine, s)
    ensures StoredParsesAreFull(engine, Next(engine, s, a)) && OutcomesAreFull(engine, Next(engine, s, a))
  {
    if a.Compute? {
      var t := s.tasks[a.task];
      var prev := if t.file in s.previous then Some(s.previous[t.file]) else None;
      DecideIsFullParse(engine, prev, t.pending, t.input);
    }
  }

  lemma OwingAfter<Doc>(tasks: map<nat, Task<Doc>>, task: nat, t: Task<Doc>)
    ensures Owing(tasks[task := t]) == Owing(tasks) - {task} + (if Owes(t) then {task} else {})
    ensures task in Owing(tasks) <==> task in tasks && Owes(tasks[task])
  {
  }

  /** What a step adds to the counters, against what it does to the parses still owing a precise hit. */
  lemma CountersStep<Doc>(s: State<Doc>, task: nat, t: Task<Doc>, hits: nat, preciseHits: nat)
    requires CountersAgree(s)
    requires preciseHits + (if Owes(t) then 1 else 0)
          <= hits + (if task in s.tasks && Owes(s.tasks[task]) then 1 else 0)
    ensures s.preciseHits + preciseHits + |Owing(s.tasks[task := t])| <= s.hits + hits
  {
    OwingAfter(s.tasks, task, t);
  }

  lemma NextKeepsCounters<Doc>(engine: Engine<Doc>, s: State<Doc>, a: Action)
    requires Enabled(s, a)
    requires OutcomesAreFull(engine, s) && CountersAgree(s)
    ensures CountersAgree(Next(engine, s, a))
  {
    var s' := Next(engine, s, a);
    match a {
      case SetText(_, _) => assert s'.tasks == s.tasks;
      case SetMarkdown(_, _) => assert s'.tasks == s.tasks;
      case StageEdits(_, _) => assert s'.tasks == s.tasks;
      case CountHit(task) =>
        assert HasOutcome(s.tasks[task]);
        CountersStep(s, task, s'.tasks[task], if s.tasks[task].outcome.incremental then 1 else 0, 0);
      case CountPrecise(task) =>
        CountersStep(s, task, s'.tasks[task], 0, if s.tasks[task].outcome.precise then 1 else 0);
      case _ =>
        CountersStep(s, a.task, s'.tasks[a.task], 0, 0);
    }
  }

  /** Every step of every handle keeps the invariant. */
  lemma NextKeepsInvariant<Doc>(engine: Engine<Doc>, s: State<Doc>, a: Action)
    requires Faithful(engine) && Invariant(engine, s) && Enabled(s, a)
    ensures Invariant(engine, Next(engine, s, a))
  {
    NextKeepsTickets(engine, s, a);
    NextKeepsOutcomes(engine, s, a);
    NextKeepsCounters(engine, s, a);
  }

  /** The state after a sequence of actions of any handles, if each was possible in its turn. */
  function Run<Doc>(engine: Engine<Doc>, actions: seq<Action>): Option<State<Doc>>
    decreases |actions|
  {
    if |actions| == 0 then Some(Initial())
    else
      var last := actions[|actions| - 1];
      match Run(engine, actions[..|actions| - 1])
      case Some(s) => if Enabled(s, last) then Some(Next(engine, s, last)) else None
      case None => None
  }

  lemma {:induction false} RunKeepsInvariant<Doc>(engine: Engine<Doc>, actions: seq<Action>)
    requires Faithful(engine) && Run(engine, actions).Some?
    ensures Invariant(engine, Run(engine, actions).value)
    decreases |actions|
  {
    if |actions| > 0 {
      RunKeepsInvariant(engine, actions[..|actions| - 1]);
      NextKeepsInvariant(engine, Run(engine, actions[..|actions| - 1]).value, actions[|actions| - 1]);
    }
  }

  /**
   * Over every interleaving: stored parses are full parses of their own text
   * under their own flag, every finished parse is the full parse of the input it
   * read, no staging is consumed twice, and precise hits never exceed hits.
   */
  lemma EveryInterleavingIsSound<Doc>(engine: Engine<Doc>, actions: seq<Action>, s: State<Doc>)
    requires Faithful(engine) && Run(engine, actions) == Some(s)
    ensures forall f :: f in s.previous ==>
              s.previous[f].doc == engine.parse(s.previous[f].text, s.previous[f].markdown)
    ensures forall t :: t in s.tasks && s.tasks[t].Done? ==>
              s.tasks[t].outcome.doc == engine.parse(s.tasks[t].input.text, s.tasks[t].input.markdown)
    ensures forall i, j :: 0 <= i < j < |s.log| ==> s.log[i].ticket != s.log[j].ticket
    ensures s.preciseHits <= s.hits
  {
    RunKeepsInvariant(engine, actions);
  }

  // --- The database object ---------------------------------------------------------

  /**
   * The shared part of the database; a clone is another reference to it. The
   * ghost `actions` are the interleaving so far, `machine` the state they lead
   * to, and each lock-protected access is one of the actions.
   */
  class SharedDatabase<!Doc> {
    const engine: Engine<Doc>
    var inputs: map<FileKey, Input>
    var reparseCache: map<FileKey, PrevParse<Doc>>
    var pendingEdits: map<FileKey, seq<Edit>>
    var reparseHits: nat
    var preciseReparseHits: nat
    ghost var actions: seq<Action>
    ghost var machine: State<Doc>

    ghost predicate Valid()
      reads this
    {
      && Run(engine, actions) == Some(machine)
      && inputs == machine.inputs
      && reparseCache == machine.previous
      && pendingEdits.Keys == machine.staged.Keys
      && (forall f :: f in pendingEdits ==> pendingEdits[f] == machine.staged[f].edits)
      && reparseHits == machine.hits
      && preciseReparseHits == machine.preciseHits
    }

    constructor (engine: Engine<Doc>)
      ensures Valid() && this.engine == engine && machine == Initial()
    {
      this.engine := engine;
      inputs, reparseCache, pendingEdits := map[], map[], map[];
      reparseHits, preciseReparseHits := 0, 0;
      actions, machine := [], Initial();
    }

    ghost method Record(a: Action)
      requires Run(engine, actions) == Some(machine) && Enabled(machine, a)
      modifies this`machine, this`actions
      ensures machine == Next(engine, old(machine), a)
      ensures Run(engine, actions) == Some(machine)
    {
      assert (actions + [a])[..|actions|] == actions;
      actions := actions + [a];
      machine := Next(engine, machine, a);
    }

    /** How the next parse of `file` would go if nothing interrupted it. */
    ghost function Decision(file: FileKey): Outcome<Doc>
      requires file in inputs
      reads this
    {
      Decide(engine,
        if file in reparseCache then Some(reparseCache[file]) else None,
        if file in pendingEdits then Some(pendingEdits[file]) else None,
        inputs[file])
    }

    lemma CachedParseIsFull(file: FileKey)
      requires Valid() && Faithful(engine) && file in reparseCache
      ensures Sound(engine, reparseCache[file])
    {
      RunKeepsInvariant(engine, actions);
    }

    method SetFileText(file: FileKey, text: Text)
      requires Valid()
      modifies this
      ensures Valid() && machine == Next(engine, old(machine), Action.SetText(file, text))
      ensures inputs == old(inputs)[file := Input(text, file in old(inputs) && old(inputs)[file].markdown)]
      ensures reparseCache == old(reparseCache) && pendingEdits == old(pendingEdits)
      ensures reparseHits == old(reparseHits) && preciseReparseHits == old(preciseReparseHits)
    {
      inputs := inputs[file := Input(text, file in inputs && inputs[file].markdown)];
      Record(Action.SetText(file, text));
    }

    /** Skips the write when the flag is unchanged. */
    method SetRoxygenMarkdown(file: FileKey, markdown: bool) returns (changed: bool)
      requires Valid() && file in inputs
      modifies this
      ensures Valid()
      ensures changed <==> old(inputs[file].markdown) != markdown
      ensures !changed ==> machine == old(machine)
      ensures changed ==> machine == Next(engine, old(machine), Action.SetMarkdown(file, markdown))
      ensures inputs == old(inputs)[file := Input(old(inputs)[file].text, markdown)]
      ensures reparseCache == old(reparseCache) && pendingEdits == old(pendingEdits)
      ensures reparseHits == old(reparseHits) && preciseReparseHits == old(preciseReparseHits)
    {
      if inputs[file].markdown == markdown {
        return false;
      }
      inputs := inputs[file := Input(inputs[file].text, markdown)];
      Record(Action.SetMarkdown(file, markdown));
      return true;
    }

    method Stage(file: FileKey, edits: seq<Edit>)
      requires Valid()
      modifies this
      ensures Valid() && machine == Next(engine, old(machine), Action.StageEdits(file, edits))
      ensures pendingEdits == if edits == [] then old(pendingEdits) - {file} else old(pendingEdits)[file := edits]
      ensures inputs == old(inputs) && reparseCache == old(reparseCache)
      ensures reparseHits == old(reparseHits) && preciseReparseHits == old(preciseReparseHits)
    {
      if |edits| == 0 {
        pendingEdits := pendingEdits - {file};
      } else {
        pendingEdits := pendingEdits[file := edits];
      }
      Record(Action.StageEdits(file, edits));
    }

    method TakePendingEdits(ghost task: nat, file: FileKey) returns (pending: Option<seq<Edit>>)
      requires Valid() && Enabled(machine, TakePending(task)) && machine.tasks[task].file == file
      modifies this
      ensures Valid() && machine == Next(engine, old(machine), TakePending(task))
      ensures pending == machine.tasks[task].pending
      ensures inputs == old(inputs) && reparseCache == old(reparseCache) && reparseHits == old(reparseHits)
      ensures preciseReparseHits == old(preciseReparseHits)
      ensures pendingEdits == old(pendingEdits) - {file}
    {
      pending := if file in pendingEdits then Some(pendingEdits[file]) else None;
      pendingEdits := pendingEdits - {file};
      Record(TakePending(task));
    }

    ghost method RecordStore(task: nat)
      requires Run(engine, actions) == Some(machine) && Enabled(machine, CountHit(task))
      modifies this`machine, this`actions
      ensures Run(engine, actions) == Some(machine) && machine == AfterStore(old(machine), task)
    {
      StoreInThreeSteps(engine, machine, task);
      Record(CountHit(task));
      Record(CountPrecise(task));
      Record(Store(task));
    }

    /** Both counters, then the map: three separate accesses. */
    method ReparseStore(ghost task: nat, file: FileKey, prev: PrevParse<Doc>, incremental: bool, precise: bool)
      requires Valid() && task in machine.tasks
      requires machine.tasks[task]
            == Computed(file, Input(prev.text, prev.markdown), Outcome(prev.doc, incremental, precise))
      modifies this
      ensures Valid() && machine == AfterStore(old(machine), task)
      ensures inputs == old(inputs) && pendingEdits == old(pendingEdits)
    {
      RecordStore(task);
      if incremental {
        reparseHits := reparseHits + 1;
      }
      if precise {
        preciseReparseHits := preciseReparseHits + 1;
      }
      reparseCache := reparseCache[file := prev];
    }

    /** Read the input and take what is staged for it. */
    method BeginParse(ghost task: nat, file: FileKey) returns (pending: Option<seq<Edit>>)
      requires Valid() && file in inputs && task !in machine.tasks
      modifies this
      ensures Valid() && inputs == old(inputs)
      ensures task in machine.tasks && machine.tasks[task] == Holding(file, inputs[file], pending)
      ensures pending == if file in old(pendingEdits) then Some(old(pendingEdits)[file]) else None
      ensures reparseCache == old(reparseCache) && reparseHits == old(reparseHits)
      ensures preciseReparseHits == old(preciseReparseHits)
      ensures pendingEdits == old(pendingEdits) - {file}
    {
      Record(Begin(task, file));
      pending := TakePendingEdits(task, file);
    }

    /** One uninterrupted parse of a tracked file. */
    method ParsedDocument(ghost task: nat, file: FileKey) returns (doc: Doc)
      requires Valid() && Faithful(engine) && file in inputs && task !in machine.tasks
      modifies this
      ensures Valid()
      ensures inputs == old(inputs)
      ensures doc == engine.parse(inputs[file].text, inputs[file].markdown)
      ensures pendingEdits == old(pendingEdits) - {file}
      ensures reparseCache == old(reparseCache)[file := PrevParse(inputs[file].text, doc, inputs[file].markdown)]
      ensures reparseHits == old(reparseHits) + if old(Decision(file)).incremental then 1 else 0
      ensures preciseReparseHits == old(preciseReparseHits) + if old(Decision(file)).precise then 1 else 0
    {
      var input := inputs[file];
      var pending := BeginParse(task, file);
      var outcome := Compute(task, file, pending, input);
      ReparseStore(task, file, PrevParse(input.text, outcome.doc, input.markdown),
        outcome.incremental, outcome.precise);
      doc := outcome.doc;
    }

    /** The parse itself, from whatever is cached and was taken. */
    method Compute(ghost task: nat, file: FileKey, pending: Option<seq<Edit>>, input: Input)
      returns (outcome: Outcome<Doc>)
      requires Valid() && Faithful(engine) && Enabled(machine, Action.Compute(task))
      requires machine.tasks[task] == Holding(file, input, pending)
      modifies this`machine, this`actions
      ensures Valid()
      ensures task in machine.tasks && machine.tasks[task] == Computed(file, input, outcome)
      ensures outcome
           == Decide(engine, if file in reparseCache then Some(reparseCache[file]) else None, pending, input)
      ensures outcome.doc == engine.parse(input.text, input.markdown)
    {
      if file in reparseCache {
        CachedParseIsFull(file);
      }
      var prev := if file in reparseCache then Some(reparseCache[file]) else None;
      outcome := Parse(prev, pending, input);
      DecideIsFullParse(engine, prev, pending, input);
      Record(Action.Compute(task));
    }

    method Parse(prev: Option<PrevParse<Doc>>, pending: Option<seq<Edit>>, input: Input)
      returns (outcome: Outcome<Doc>)
      ensures outcome == Decide(engine, prev, pending, input)
    {
      if prev.Some? && prev.value.text != input.text && prev.value.markdown == input.markdown {
        var base := prev.value;
        if pending.Some? {
          var precise := ReparseEdits(engine, base.doc, base.text, pending.value, input.text, input.markdown);
          if precise.Some? {
            return Outcome(precise.value, true, true);
          }
        }
        var edit := DiffEdit(base.text, input.text);
        var spanning := Reparse(engine, base.doc, base.text, edit, input.markdown);
        if spanning.Some? {
          return Outcome(spanning.value, true, false);
        }
      }
      return Outcome(engine.parse(input.text, input.markdown), false, false);
    }
  }

  /** The state once a computed parse is counted and stored. */
  ghost function AfterStore<Doc>(s: State<Doc>, task: nat): State<Doc>
    requires task in s.tasks && s.tasks[task].Computed?
  {
    var t := s.tasks[task];
    s.(tasks := s.tasks[task := Done(t.file, t.input, t.outcome)],
       hits := s.hits + if t.outcome.incremental then 1 else 0,
       preciseHits := s.preciseHits + if t.outcome.precise then 1 else 0,
       previous := s.previous[t.file := PrevParse(t.input.text, t.outcome.doc, t.input.markdown)])
  }

  lemma StoreInThreeSteps<Doc>(engine: Engine<Doc>, s: State<Doc>, task: nat)
    requires Enabled(s, CountHit(task))
    ensures Enabled(Next(engine, s, CountHit(task)), CountPrecise(task))
    ensures var s' := Next(engine, Next(engine, s, CountHit(task)), CountPrecise(task));
      Enabled(s', Store(task)) && Next(engine, s', Store(task)) == AfterStore(s, task)
  {
    var t := s.tasks[task];
    var one, two, three :=
      HitCounted(t.file, t.input, t.outcome),
      PreciseCounted(t.file, t.input, t.outcome),
      Done(t.file, t.input, t.outcome);
    assert s.tasks[task := one][task := two][task := three] == s.tasks[task := three];
  }
}
