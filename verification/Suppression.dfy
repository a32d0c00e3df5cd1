/**
 * Comment directives of `src/linter/suppression.rs`: off/on regions, the two
 * indices over the directives, and filtering findings through them.
 */
module Suppression {
  import opened Common
  import opened Diagnostics

  datatype Tool = Both | Format | Lint

  datatype Verb = Skip | Off | On | SkipFile

  datatype RuleScope = Rule(id: string) | All | Unnamed

  datatype Coverage = File | Covered(range: Range) | Nothing

  datatype Directive = Directive(
    tool: Tool, verb: Verb, scope: RuleScope, comment: Range, coverage: Coverage, matched: bool)

  /** What the directive grammar makes of one comment. */
  datatype Parsed = NotDirective | Malformed | Recognized(tool: Tool, verb: Verb, scope: RuleScope)

  /** A comment of the file, with what a node directive there would attach to. */
  datatype Comment = Comment(parsed: Parsed, range: Range, target: Option<Range>)

  predicate AffectsLint(tool: Tool) {
    tool == Both || tool == Lint
  }

  function Place(c: Comment): Directive
    requires c.parsed.Recognized?
  {
    var coverage :=
      match c.parsed.verb
      case SkipFile => File
      case Skip => (match c.target case Some(range) => Covered(range) case None => Nothing)
      case _ => Nothing;
    Directive(c.parsed.tool, c.parsed.verb, c.parsed.scope, c.range, coverage, false)
  }

  /** The directives among the comments, in order, before any region is closed. */
  function Placed(comments: seq<Comment>): seq<Directive> {
    if |comments| == 0 then []
    else
      var last := comments[|comments| - 1];
      Placed(comments[..|comments| - 1]) + (if last.parsed.Recognized? then [Place(last)] else [])
  }

  function Broken(comments: seq<Comment>): seq<Range> {
    if |comments| == 0 then []
    else
      var last := comments[|comments| - 1];
      Broken(comments[..|comments| - 1]) + (if last.parsed.Malformed? then [last.range] else [])
  }

  // --- Regions: searching for each closer --------------------------------------

  predicate IsOn(d: Directive, tool: Tool) {
    d.verb == On && d.tool == tool
  }

  /** The first `on` with this prefix at or after `from`. */
  function FirstOn(ds: seq<Directive>, from: nat, tool: Tool): (closer: Option<nat>)
    ensures closer.Some? ==> from <= closer.value < |ds| && IsOn(ds[closer.value], tool)
    ensures forall j :: from <= j < (if closer.Some? then closer.value else |ds|) ==> !IsOn(ds[j], tool)
    decreases |ds| - from
  {
    if from >= |ds| then None
    else if IsOn(ds[from], tool) then Some(from)
    else FirstOn(ds, from + 1, tool)
  }

  /** The `off` at `i` runs to the `on` at `j`. */
  predicate Closes(ds: seq<Directive>, i: nat, j: nat) {
    i < j < |ds| && ds[i].verb == Off && FirstOn(ds, i + 1, ds[i].tool) == Some(j)
  }

  function RegionEnd(ds: seq<Directive>, closer: Option<nat>, endOfFile: nat): nat
    requires closer.Some? ==> closer.value < |ds|
  {
    match closer
    case Some(j) => ds[j].comment.start
    case None => endOfFile
  }

  function CloseOff(off: Directive, closed: bool, end: nat): Directive {
    off.(matched := closed,
         coverage := if off.comment.end <= end then Covered(Range(off.comment.end, end)) else off.coverage)
  }

  /** A directive after the regions are closed. */
  function ClosedAt(ds: seq<Directive>, k: nat, endOfFile: nat): Directive
    requires k < |ds|
  {
    if ds[k].verb == Off then
      var closer := FirstOn(ds, k + 1, ds[k].tool);
      CloseOff(ds[k], closer.Some?, RegionEnd(ds, closer, endOfFile))
    else if exists i: nat :: i < k && Closes(ds, i, k) then ds[k].(matched := true)
    else ds[k]
  }

  ghost predicate Closed(before: seq<Directive>, after: seq<Directive>, endOfFile: nat) {
    && |after| == |before|
    && forall k: nat :: k < |before| ==> after[k] == ClosedAt(before, k, endOfFile)
  }

  // --- Regions: one pass with a set of open ones --------------------------------

  /** Which regions are open after a prefix, where the others closed, and which `on`s closed something. */
  datatype Pass = Pass(open: set<nat>, closers: map<nat, nat>, effective: set<nat>)

  function OpenWith(ds: seq<Directive>, open: set<nat>, tool: Tool): set<nat> {
    set i | i in open && i < |ds| && ds[i].tool == tool
  }

  function OnePass(ds: seq<Directive>, n: nat): Pass
    requires n <= |ds|
  {
    if n == 0 then Pass({}, map[], {})
    else
      var p := OnePass(ds, n - 1);
      var d := ds[n - 1];
      match d.verb
      case Off => p.(open := p.open + {n - 1})
      case On =>
        var closing := OpenWith(ds, p.open, d.tool);
        Pass(p.open - closing,
          map i | i in p.closers.Keys + closing :: if i in closing then n - 1 else p.closers[i],
          if closing == {} then p.effective else p.effective + {n - 1})
      case _ => p
  }

  function AutomatonAt(ds: seq<Directive>, k: nat, endOfFile: nat): Directive
    requires k < |ds|
  {
    var p := OnePass(ds, |ds|);
    if ds[k].verb == Off then
      if k in p.closers && p.closers[k] < |ds| then CloseOff(ds[k], true, ds[p.closers[k]].comment.start)
      else CloseOff(ds[k], false, endOfFile)
    else if k in p.effective then ds[k].(matched := true)
    else ds[k]
  }

  /** No `on` with this prefix in `from..to`. */
  predicate NoOnBetween(ds: seq<Directive>, from: nat, to: nat, tool: Tool)
    requires to <= |ds|
  {
    forall j :: from <= j < to ==> !IsOn(ds[j], tool)
  }

  /** The open regions are the `off`s not followed by an `on` of their prefix. */
  ghost predicate OpenAgrees(ds: seq<Directive>, n: nat, p: Pass)
    requires n <= |ds|
  {
    forall i: nat :: i in p.open <==> i < n && ds[i].verb == Off && NoOnBetween(ds, i + 1, n, ds[i].tool)
  }

  ghost predicate ClosersAgree(ds: seq<Directive>, n: nat, p: Pass)
    requires n <= |ds|
  {
    forall i: nat, j: nat :: CloserAgrees(ds, n, p, i, j)
  }

  predicate CloserAgrees(ds: seq<Directive>, n: nat, p: Pass, i: nat, j: nat) {
    i in p.closers && p.closers[i] == j <==> j < n && Closes(ds, i, j)
  }

  ghost predicate ClosesSome(ds: seq<Directive>, j: nat) {
    exists i: nat :: Closes(ds, i, j)
  }

  ghost predicate EffectiveAgrees(ds: seq<Directive>, n: nat, p: Pass)
    requires n <= |ds|
  {
    forall j: nat :: j in p.effective <==> j < n && ClosesSome(ds, j)
  }

  ghost predicate PassAgrees(ds: seq<Directive>, n: nat, p: Pass)
    requires n <= |ds|
  {
    OpenAgrees(ds, n, p) && ClosersAgree(ds, n, p) && EffectiveAgrees(ds, n, p)
  }

  /** The last directive closes exactly the open regions of its prefix, if it is an `on`. */
  lemma LastCloses(ds: seq<Directive>, n: nat, p: Pass, i: nat)
    requires 0 < n <= |ds| && OpenAgrees(ds, n - 1, p)
    ensures Closes(ds, i, n - 1) <==> i in p.open && IsOn(ds[n - 1], ds[i].tool)
  {
    if i < n - 1 {
    }
  }

  lemma OpenStep(ds: seq<Directive>, n: nat, p: Pass)
    requires 0 < n <= |ds| && p == OnePass(ds, n - 1) && OpenAgrees(ds, n - 1, p)
    ensures OpenAgrees(ds, n, OnePass(ds, n))
  {
    var q := OnePass(ds, n);
    forall i: nat ensures i in q.open <==> i < n && ds[i].verb == Off && NoOnBetween(ds, i + 1, n, ds[i].tool) {
      if i < n - 1 {
        assert NoOnBetween(ds, i + 1, n, ds[i].tool)
          <==> NoOnBetween(ds, i + 1, n - 1, ds[i].tool) && !IsOn(ds[n - 1], ds[i].tool);
      }
    }
  }

  lemma ClosersStep(ds: seq<Directive>, n: nat, p: Pass)
    requires 0 < n <= |ds| && p == OnePass(ds, n - 1) && OpenAgrees(ds, n - 1, p) && ClosersAgree(ds, n - 1, p)
    ensures ClosersAgree(ds, n, OnePass(ds, n))
  {
    var q, last := OnePass(ds, n), n - 1;
    var closing := if ds[last].verb == On then OpenWith(ds, p.open, ds[last].tool) else {};
    assert q.closers.Keys == p.closers.Keys + closing;
    forall i: nat, j: nat ensures CloserAgrees(ds, n, q, i, j) {
      LastCloses(ds, n, p, i);
      assert CloserAgrees(ds, n - 1, p, i, j);
      if i in closing {
        assert q.closers[i] == last && Closes(ds, i, last);
      } else if i in p.closers {
        assert q.closers[i] == p.closers[i];
        assert CloserAgrees(ds, n - 1, p, i, p.closers[i]);
      }
    }
  }

  lemma LastIsEffective(ds: seq<Directive>, last: nat, closing: set<nat>)
    requires forall i: nat :: i in closing <==> Closes(ds, i, last)
    ensures ClosesSome(ds, last) <==> closing != {}
  {
    if closing != {} {
      var i :| i in closing;
      assert Closes(ds, i, last);
    }
  }

  lemma EffectiveStep(ds: seq<Directive>, n: nat, p: Pass)
    requires 0 < n <= |ds| && p == OnePass(ds, n - 1) && OpenAgrees(ds, n - 1, p) && EffectiveAgrees(ds, n - 1, p)
    ensures EffectiveAgrees(ds, n, OnePass(ds, n))
  {
    var last := n - 1;
    var closing := if ds[last].verb == On then OpenWith(ds, p.open, ds[last].tool) else {};
    forall i: nat ensures i in closing <==> Closes(ds, i, last) {
      LastCloses(ds, n, p, i);
    }
    LastIsEffective(ds, last, closing);
    assert OnePass(ds, n).effective == if closing == {} then p.effective else p.effective + {last};
  }

  lemma {:induction false} OnePassAgrees(ds: seq<Directive>, n: nat)
    requires n <= |ds|
    ensures PassAgrees(ds, n, OnePass(ds, n))
  {
    if n > 0 {
      OnePassAgrees(ds, n - 1);
      OpenStep(ds, n, OnePass(ds, n - 1));
      ClosersStep(ds, n, OnePass(ds, n - 1));
      EffectiveStep(ds, n, OnePass(ds, n - 1));
    }
  }

  /** Searching for every closer gives what the one-pass automaton gives. */
  lemma SearchIsAutomaton(ds: seq<Directive>, k: nat, endOfFile: nat)
    requires k < |ds|
    ensures ClosedAt(ds, k, endOfFile) == AutomatonAt(ds, k, endOfFile)
  {
    OnePassAgrees(ds, |ds|);
    var p := OnePass(ds, |ds|);
    if ds[k].verb == Off {
      var closer := FirstOn(ds, k + 1, ds[k].tool);
      assert k in p.closers ==> CloserAgrees(ds, |ds|, p, k, p.closers[k]);
      if closer.Some? {
        assert CloserAgrees(ds, |ds|, p, k, closer.value);
      }
    }
  }

  /** Comments one after the other, each ending before the next starts, inside the file. */
  ghost predicate InSourceOrder(ds: seq<Directive>, endOfFile: nat) {
    && (forall i :: 0 <= i < |ds| ==> ds[i].comment.start <= ds[i].comment.end <= endOfFile)
    && (forall i, j :: 0 <= i < j < |ds| ==> ds[i].comment.end <= ds[j].comment.start)
  }

  /**
   * In source order the start of a region never passes its end, and an `off`
   * covers exactly what lies after it and before every later `on` of its prefix.
   */
  lemma OffCoversToFirstOn(ds: seq<Directive>, k: nat, endOfFile: nat, range: Range)
    requires k < |ds| && ds[k].verb == Off && InSourceOrder(ds, endOfFile) && range.Ordered()
    ensures ClosedAt(ds, k, endOfFile).coverage.Covered?
    ensures ClosedAt(ds, k, endOfFile).coverage.range.Contains(range)
       <==> && ds[k].comment.end <= range.start && range.end <= endOfFile
            && forall j :: k < j < |ds| && IsOn(ds[j], ds[k].tool) ==> range.end <= ds[j].comment.start
  {
    var closer := FirstOn(ds, k + 1, ds[k].tool);
    if closer.Some? {
      var j := closer.value;
      assert forall i :: k < i < |ds| && IsOn(ds[i], ds[k].tool) ==> j <= i;
    }
  }

  // --- Which directives apply ----------------------------------------------------

  predicate Active(d: Directive) {
    AffectsLint(d.tool) && d.verb != On
  }

  /** The directive is a candidate for findings of `rule`. */
  predicate Applies(d: Directive, rule: string) {
    Active(d) && (d.scope == All || d.scope == Rule(rule))
  }

  predicate OnDirectiveComment(ds: seq<Directive>, broken: seq<Range>, range: Range) {
    || (exists d <- ds :: d.comment.Contains(range))
    || (exists comment <- broken :: comment.Contains(range))
  }

  predicate CoversRange(ds: seq<Directive>, broken: seq<Range>, d: Directive, range: Range) {
    !(d.scope == All && OnDirectiveComment(ds, broken, range))
    && match d.coverage
       case File => true
       case Covered(covered) => covered.Contains(range)
       case Nothing => false
  }

  /** The plain scan: directive `i` hides a finding of `rule` at `range`. */
  predicate Hides(ds: seq<Directive>, broken: seq<Range>, i: nat, rule: string, range: Range) {
    i < |ds| && Applies(ds[i], rule) && CoversRange(ds, broken, ds[i], range)
  }

  predicate Suppressed(ds: seq<Directive>, broken: seq<Range>, rule: string, range: Range) {
    exists i :: 0 <= i < |ds| && Hides(ds, broken, i, rule, range)
  }

  function Kept(ds: seq<Directive>, broken: seq<Range>, findings: seq<Diagnostic>): (kept: seq<Diagnostic>)
    ensures forall f :: f in kept <==> f in findings && !Suppressed(ds, broken, f.rule, f.range)
  {
    if |findings| == 0 then []
    else
      var last := findings[|findings| - 1];
      Kept(ds, broken, findings[..|findings| - 1])
      + (if Suppressed(ds, broken, last.rule, last.range) then [] else [last])
  }

  ghost predicate UsedExactly(
      ds: seq<Directive>, broken: seq<Range>, findings: seq<Diagnostic>, used: seq<bool>)
  {
    && |used| == |ds|
    && forall i: nat :: i < |ds| ==>
         (used[i] <==> exists f <- findings :: Hides(ds, broken, i, f.rule, f.range))
  }

  /** One more finding is kept unless something hits it, and marks exactly what does. */
  lemma FilterStep(
      ds: seq<Directive>, broken: seq<Range>, findings: seq<Diagnostic>, k: nat,
      hits: seq<nat>, used: seq<bool>, marked: seq<bool>)
    requires k < |findings| && UsedExactly(ds, broken, findings[..k], used)
    requires forall i: nat :: i in hits <==> Hides(ds, broken, i, findings[k].rule, findings[k].range)
    requires |marked| == |used| && forall i: nat :: i < |used| ==> (marked[i] <==> used[i] || i in hits)
    ensures Kept(ds, broken, findings[..k + 1])
         == Kept(ds, broken, findings[..k]) + (if |hits| == 0 then [findings[k]] else [])
    ensures UsedExactly(ds, broken, findings[..k + 1], marked)
  {
    var f := findings[k];
    assert (findings[..k + 1])[..k] == findings[..k];
    SuppressedIffHit(ds, broken, f, hits);
    UsedByOneMore(ds, broken, findings[..k], f, hits, used, marked);
    assert findings[..k + 1] == findings[..k] + [f];
  }

  lemma SuppressedIffHit(ds: seq<Directive>, broken: seq<Range>, f: Diagnostic, hits: seq<nat>)
    requires forall i: nat :: i in hits <==> Hides(ds, broken, i, f.rule, f.range)
    ensures Suppressed(ds, broken, f.rule, f.range) <==> |hits| > 0
  {
    assert |hits| == 0 || hits[0] in hits;
  }

  lemma UsedByOneMore(
      ds: seq<Directive>, broken: seq<Range>, before: seq<Diagnostic>, f: Diagnostic,
      hits: seq<nat>, used: seq<bool>, marked: seq<bool>)
    requires UsedExactly(ds, broken, before, used)
    requires forall i: nat :: i in hits <==> Hides(ds, broken, i, f.rule, f.range)
    requires |marked| == |used| && forall i: nat :: i < |used| ==> (marked[i] <==> used[i] || i in hits)
    ensures UsedExactly(ds, broken, before + [f], marked)
  {
    assert forall g :: g in before + [f] <==> g in before || g == f;
  }

  lemma {:induction false} KeptAppend(
      ds: seq<Directive>, broken: seq<Range>, a: seq<Diagnostic>, b: seq<Diagnostic>)
    ensures Kept(ds, broken, a + b) == Kept(ds, broken, a) + Kept(ds, broken, b)
  {
    if |b| == 0 {
      assert a + b == a;
    } else {
      assert (a + b)[..|a + b| - 1] == a + b[..|b| - 1];
      KeptAppend(ds, broken, a, b[..|b| - 1]);
    }
  }

  /** Filtering a second time removes nothing and uses no directive. */
  lemma {:induction false} FilterIsIdempotent(ds: seq<Directive>, broken: seq<Range>, findings: seq<Diagnostic>)
    ensures var kept := Kept(ds, broken, findings);
      && Kept(ds, broken, kept) == kept
      && forall i: nat, f :: f in kept ==> !Hides(ds, broken, i, f.rule, f.range)
  {
    if |findings| > 0 {
      var init, last := findings[..|findings| - 1], findings[|findings| - 1];
      FilterIsIdempotent(ds, broken, init);
      KeptAppend(ds, broken, Kept(ds, broken, init), Kept(ds, broken, [last]));
      assert [last][..0] == [];
      assert Kept(ds, broken, [last]) == if Suppressed(ds, broken, last.rule, last.range) then [] else [last];
    }
  }

  /** A finding on a directive comment, recognized or malformed, is only ever hidden by naming its rule. */
  lemma BlanketSparesDirectiveComments(
      ds: seq<Directive>, broken: seq<Range>, i: nat, rule: string, range: Range)
    requires OnDirectiveComment(ds, broken, range)
    ensures Hides(ds, broken, i, rule, range) ==> ds[i].scope == Rule(rule)
  {
  }

  /** So a finding on a directive comment stays exactly when no directive that names its rule covers it. */
  lemma DirectiveFindingStaysIff(
      ds: seq<Directive>, broken: seq<Range>, findings: seq<Diagnostic>, f: Diagnostic)
    requires OnDirectiveComment(ds, broken, f.range) && f in findings
    ensures f in Kept(ds, broken, findings) <==>
      forall i: nat :: i < |ds| && ds[i].scope == Rule(f.rule) ==> !Hides(ds, broken, i, f.rule, f.range)
  {
    forall i: nat ensures Hides(ds, broken, i, f.rule, f.range) ==> i < |ds| && ds[i].scope == Rule(f.rule) {
      if i < |ds| {
        BlanketSparesDirectiveComments(ds, broken, i, f.rule, f.range);
      }
    }
  }

  // --- The map object ----------------------------------------------------------------

  /** The positions below `n` whose directive covers every rule. */
  function AllRulesIndex(ds: seq<Directive>, n: nat): seq<nat>
    requires n <= |ds|
  {
    if n == 0 then []
    else
      AllRulesIndex(ds, n - 1) + (if Active(ds[n - 1]) && ds[n - 1].scope == All then [n - 1] else [])
  }

  /** The positions below `n` whose directive names `rule`. */
  function RuleIndex(ds: seq<Directive>, rule: string, n: nat): seq<nat>
    requires n <= |ds|
  {
    if n == 0 then []
    else
      RuleIndex(ds, rule, n - 1) + (if Active(ds[n - 1]) && ds[n - 1].scope == Rule(rule) then [n - 1] else [])
  }

  function Entry(byRule: map<string, seq<nat>>, rule: string): seq<nat> {
    if rule in byRule then byRule[rule] else []
  }

  ghost predicate ByRuleAgrees(ds: seq<Directive>, byRule: map<string, seq<nat>>, n: nat)
    requires n <= |ds|
  {
    forall rule: string :: Entry(byRule, rule) == RuleIndex(ds, rule, n)
  }

  /** The map after directive `n` is filed. */
  function Filed(byRule: map<string, seq<nat>>, d: Directive, n: nat): map<string, seq<nat>> {
    if Active(d) && d.scope.Rule? then byRule[d.scope.id := Entry(byRule, d.scope.id) + [n]] else byRule
  }

  lemma ByRuleStep(ds: seq<Directive>, byRule: map<string, seq<nat>>, n: nat)
    requires n < |ds| && ByRuleAgrees(ds, byRule, n)
    ensures ByRuleAgrees(ds, Filed(byRule, ds[n], n), n + 1)
  {
    forall rule: string ensures Entry(Filed(byRule, ds[n], n), rule) == RuleIndex(ds, rule, n + 1) {
      assert Entry(byRule, rule) == RuleIndex(ds, rule, n);
    }
  }

  lemma {:induction false} IndexedExactly(ds: seq<Directive>, rule: string, n: nat)
    requires n <= |ds|
    ensures forall i: nat :: i in AllRulesIndex(ds, n) <==> i < n && Active(ds[i]) && ds[i].scope == All
    ensures forall i: nat :: i in RuleIndex(ds, rule, n) <==> i < n && Active(ds[i]) && ds[i].scope == Rule(rule)
  {
    if n > 0 {
      IndexedExactly(ds, rule, n - 1);
    }
  }

  class SuppressionMap {
    var directives: seq<Directive>
    var malformed: seq<Range>
    var allRules: seq<nat>
    var byRule: map<string, seq<nat>>

    /** Both indices agree with the directive list. */
    ghost predicate Valid()
      reads this
    {
      IndexedBelow(|directives|)
    }

    function Named(rule: string): seq<nat>
      reads this
    {
      Entry(byRule, rule)
    }

    function Candidates(rule: string): seq<nat>
      reads this
    {
      allRules + Named(rule)
    }

    function Covers(i: nat, range: Range): bool
      requires i < |directives|
      reads this
    {
      CoversRange(directives, malformed, directives[i], range)
    }

    /** The indexed lookup agrees with a plain scan of all directives. */
    lemma CandidatesAreTheScan(rule: string, i: nat)
      requires Valid()
      ensures i in Candidates(rule) <==> i < |directives| && Applies(directives[i], rule)
    {
      IndexedExactly(directives, rule, |directives|);
      assert i in Candidates(rule) <==> i in allRules || i in Named(rule);
    }

    method IsSuppressed(rule: string, range: Range) returns (suppressed: bool)
      requires Valid()
      ensures suppressed <==> Suppressed(directives, malformed, rule, range)
    {
      var hits := Hits(rule, range);
      suppressed := |hits| > 0;
      if suppressed {
        assert hits[0] in hits;
      }
      assert forall i: nat :: Hides(directives, malformed, i, rule, range) ==> i in hits;
    }

    /** Every candidate directive that covers the finding. */
    method Hits(rule: string, range: Range) returns (hits: seq<nat>)
      requires Valid()
      ensures forall i: nat :: i in hits <==> Hides(directives, malformed, i, rule, range)
    {
      var candidates := Candidates(rule);
      hits := [];
      for k := 0 to |candidates|
        invariant forall i :: i in hits <==> i in candidates[..k] && Hides(directives, malformed, i, rule, range)
      {
        CandidatesAreTheScan(rule, candidates[k]);
        if Covers(candidates[k], range) {
          hits := hits + [candidates[k]];
        }
      }
      assert candidates[..|candidates|] == candidates;
      forall i: nat ensures i in candidates <==> i < |directives| && Applies(directives[i], rule) {
        CandidatesAreTheScan(rule, i);
      }
    }

    /** Drop what is suppressed, and record every directive that did any of it. */
    method Filter(findings: seq<Diagnostic>) returns (kept: seq<Diagnostic>, used: seq<bool>)
      requires Valid()
      ensures kept == Kept(directives, malformed, findings)
      ensures UsedExactly(directives, malformed, findings, used)
    {
      kept := [];
      used := seq(|directives|, _ => false);
      for k := 0 to |findings|
        invariant kept == Kept(directives, malformed, findings[..k])
        invariant UsedExactly(directives, malformed, findings[..k], used)
      {
        var f := findings[k];
        var hits := Hits(f.rule, f.range);
        var marked := Mark(used, hits);
        FilterStep(directives, malformed, findings, k, hits, used, marked);
        used := marked;
        if |hits| == 0 {
          kept := kept + [f];
        }
      }
      assert findings[..|findings|] == findings;
    }

    static method Mark(used: seq<bool>, hits: seq<nat>) returns (marked: seq<bool>)
      requires forall i :: i in hits ==> i < |used|
      ensures |marked| == |used|
      ensures forall i: nat :: i < |used| ==> (marked[i] <==> used[i] || i in hits)
    {
      marked := used;
      for k := 0 to |hits|
        invariant |marked| == |used|
        invariant forall i: nat :: i < |used| ==> (marked[i] <==> used[i] || i in hits[..k])
      {
        assert hits[k] in hits;
        marked := marked[hits[k] := true];
      }
      assert hits[..|hits|] == hits;
    }

    constructor Build(comments: seq<Comment>, endOfFile: nat)
      ensures Valid()
      ensures Closed(Placed(comments), directives, endOfFile)
      ensures malformed == Broken(comments)
    {
      directives, malformed, allRules, byRule := [], [], [], map[];
      new;
      for k := 0 to |comments|
        invariant directives == Placed(comments[..k]) && malformed == Broken(comments[..k])
        invariant allRules == [] && byRule == map[]
      {
        assert comments[..k + 1][..k] == comments[..k];
        Classify(comments[k]);
      }
      assert comments[..|comments|] == comments;
      Finish(endOfFile);
    }

    method Classify(c: Comment)
      modifies this`directives, this`malformed
      ensures directives == old(directives) + (if c.parsed.Recognized? then [Place(c)] else [])
      ensures malformed == old(malformed) + (if c.parsed.Malformed? then [c.range] else [])
    {
      match c.parsed {
        case Recognized(_, _, _) => directives := directives + [Place(c)];
        case Malformed => malformed := malformed + [c.range];
        case NotDirective =>
      }
    }

    /** Close the regions, then index what can suppress a finding. */
    method Finish(endOfFile: nat)
      requires allRules == [] && byRule == map[]
      modifies this
      ensures Valid() && malformed == old(malformed)
      ensures Closed(old(directives), directives, endOfFile)
    {
      CloseRegions(endOfFile);
      BuildIndex();
    }

    method BuildIndex()
      requires allRules == [] && byRule == map[]
      modifies this`allRules, this`byRule
      ensures Valid()
    {
      for i := 0 to |directives|
        invariant IndexedBelow(i)
      {
        IndexOne(i);
      }
    }

    /** Both indices list what the first `n` directives contribute. */
    ghost predicate IndexedBelow(n: nat)
      requires n <= |directives|
      reads this
    {
      allRules == AllRulesIndex(directives, n) && ByRuleAgrees(directives, byRule, n)
    }

    method IndexOne(i: nat)
      requires i < |directives| && IndexedBelow(i)
      modifies this`allRules, this`byRule
      ensures IndexedBelow(i + 1)
    {
      var d := directives[i];
      if Active(d) {
        match d.scope {
          case All => allRules := allRules + [i];
          case Rule(id) => byRule := byRule[id := Named(id) + [i]];
          case Unnamed =>
        }
      }
      ByRuleStep(directives, old(byRule), i);
    }

    method CloseRegions(endOfFile: nat)
      modifies this`directives
      ensures Closed(old(directives), directives, endOfFile)
    {
      var before := directives;
      var closers: seq<Option<nat>> := [];
      for i := 0 to |before|
        invariant |closers| == i && directives == before
        invariant forall k :: 0 <= k < i && before[k].verb == Off ==>
                    closers[k] == FirstOn(before, k + 1, before[k].tool)
      {
        var closer := None;
        if before[i].verb == Off {
          closer := FindCloser(before, i);
        }
        closers := closers + [closer];
      }
      for i := 0 to |before|
        invariant |directives| == |before|
        invariant forall k: nat :: k < |before| ==> directives[k] == ClosedSoFar(before, k, i, endOfFile)
      {
        CloseOneMore(before, i, endOfFile);
        if before[i].verb == Off {
          var off := directives[i];
          match closers[i] {
            case Some(j) => directives := directives[j := directives[j].(matched := true)];
            case None =>
          }
          directives := directives[i := CloseOff(off, closers[i].Some?, RegionEnd(before, closers[i], endOfFile))];
        }
      }
    }
  }

  method FindCloser(ds: seq<Directive>, i: nat) returns (closer: Option<nat>)
    requires i < |ds|
    ensures closer == FirstOn(ds, i + 1, ds[i].tool)
  {
    var j := i + 1;
    while j < |ds| && !IsOn(ds[j], ds[i].tool)
      invariant j <= |ds|
      invariant FirstOn(ds, i + 1, ds[i].tool) == FirstOn(ds, j, ds[i].tool)
    {
      j := j + 1;
    }
    closer := if j < |ds| then Some(j) else None;
  }

  /** `ClosedAt`, with only the regions opened before `n` closed. */
  ghost function ClosedSoFar(ds: seq<Directive>, k: nat, n: nat, endOfFile: nat): Directive
    requires k < |ds|
  {
    if ds[k].verb == Off then if k < n then ClosedAt(ds, k, endOfFile) else ds[k]
    else if exists i: nat :: i < n && Closes(ds, i, k) then ds[k].(matched := true)
    else ds[k]
  }

  lemma CloseOneMore(ds: seq<Directive>, i: nat, endOfFile: nat)
    requires i < |ds|
    ensures forall k: nat :: k < |ds| && ds[k].verb != Off ==>
      ClosedSoFar(ds, k, i + 1, endOfFile)
        == if Closes(ds, i, k) then ds[k].(matched := true) else ClosedSoFar(ds, k, i, endOfFile)
  {
    forall k: nat | k < |ds| && ds[k].verb != Off
      ensures ClosedSoFar(ds, k, i + 1, endOfFile)
           == if Closes(ds, i, k) then ds[k].(matched := true) else ClosedSoFar(ds, k, i, endOfFile)
    {
      assert (exists x: nat :: x < i + 1 && Closes(ds, x, k))
        <==> (exists x: nat :: x < i && Closes(ds, x, k)) || Closes(ds, i, k);
    }
  }
}
