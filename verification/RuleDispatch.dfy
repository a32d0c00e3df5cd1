/**
 * The lint driver of `src/linter/rules.rs`: choosing rules, the precomputed
 * dispatch table, and the order of filtering, post-pass, stamping and sorting.
 */
module RuleDispatch {
  import opened Common
  import opened Diagnostics
  import opened DirectiveEffect
  import opened StableSort
  import opened Strings
  import opened Suppression

  type Kind = nat

  /** A node or token of the tree, in traversal order. */
  datatype Element = Element(kind: Kind, range: Range)

  /** A rule, seen as the findings it appends in each of its three passes. */
  datatype LintRule<!Ctx> = LintRule(
    id: string,
    severity: Severity,
    enabledByDefault: bool,
    interests: seq<Kind>,
    check: (Ctx, Element) -> seq<Diagnostic>,
    checkFile: Ctx -> seq<Diagnostic>,
    checkSuppressions: (Ctx, seq<bool>) -> seq<Diagnostic>)

  // --- The naive traversal ---------------------------------------------------

  /** What the first `n` rules say about one element when every rule is asked in turn. */
  function Asked<Ctx>(rules: seq<LintRule<Ctx>>, n: nat, ctx: Ctx, el: Element): seq<Diagnostic>
    requires n <= |rules|
  {
    if n == 0 then []
    else
      Asked(rules, n - 1, ctx, el)
      + (if el.kind in rules[n - 1].interests then rules[n - 1].check(ctx, el) else [])
  }

  /** Every rule at every element it is interested in. */
  function NodeFindings<Ctx>(rules: seq<LintRule<Ctx>>, ctx: Ctx, elements: seq<Element>): seq<Diagnostic> {
    if |elements| == 0 then []
    else
      NodeFindings(rules, ctx, elements[..|elements| - 1])
      + Asked(rules, |rules|, ctx, elements[|elements| - 1])
  }

  function FileFindings<Ctx>(rules: seq<LintRule<Ctx>>, n: nat, ctx: Ctx): seq<Diagnostic>
    requires n <= |rules|
  {
    if n == 0 then [] else FileFindings(rules, n - 1, ctx) + rules[n - 1].checkFile(ctx)
  }

  function PostFindings<Ctx>(rules: seq<LintRule<Ctx>>, n: nat, ctx: Ctx, used: seq<bool>): seq<Diagnostic>
    requires n <= |rules|
  {
    if n == 0 then [] else PostFindings(rules, n - 1, ctx, used) + rules[n - 1].checkSuppressions(ctx, used)
  }

  function RawFindings<Ctx>(rules: seq<LintRule<Ctx>>, ctx: Ctx, elements: seq<Element>): seq<Diagnostic> {
    NodeFindings(rules, ctx, elements) + FileFindings(rules, |rules|, ctx)
  }

  /** Rule `i` is interested in element `e`, and says `d` of it. */
  ghost predicate Says<Ctx>(
      rules: seq<LintRule<Ctx>>, i: nat, ctx: Ctx, elements: seq<Element>, e: nat, d: Diagnostic)
  {
    && i < |rules| && e < |elements|
    && elements[e].kind in rules[i].interests && d in rules[i].check(ctx, elements[e])
  }

  lemma {:induction false} AskedAre<Ctx>(
      rules: seq<LintRule<Ctx>>, n: nat, ctx: Ctx, elements: seq<Element>, e: nat, d: Diagnostic)
    requires n <= |rules| && e < |elements|
    ensures d in Asked(rules, n, ctx, elements[e]) <==> exists i: nat :: i < n && Says(rules, i, ctx, elements, e, d)
    decreases n
  {
    if n > 0 {
      AskedAre(rules, n - 1, ctx, elements, e, d);
      assert Says(rules, n - 1, ctx, elements, e, d) <==>
        elements[e].kind in rules[n - 1].interests && d in rules[n - 1].check(ctx, elements[e]);
    }
  }

  ghost predicate IsSaid<Ctx>(rules: seq<LintRule<Ctx>>, ctx: Ctx, elements: seq<Element>, e: nat, d: Diagnostic) {
    exists i: nat :: Says(rules, i, ctx, elements, e, d)
  }

  lemma AllAsked<Ctx>(rules: seq<LintRule<Ctx>>, ctx: Ctx, elements: seq<Element>, e: nat, d: Diagnostic)
    requires e < |elements|
    ensures d in Asked(rules, |rules|, ctx, elements[e]) <==> IsSaid(rules, ctx, elements, e, d)
  {
    AskedAre(rules, |rules|, ctx, elements, e, d);
    if i: nat :| Says(rules, i, ctx, elements, e, d) {
      assert i < |rules|;
    }
  }

  /** The traversal finds what some rule says of some element it is interested in. */
  lemma {:induction false} NodeFindingsAre<Ctx>(
      rules: seq<LintRule<Ctx>>, ctx: Ctx, elements: seq<Element>, n: nat, d: Diagnostic)
    requires n <= |elements|
    ensures d in NodeFindings(rules, ctx, elements[..n]) <==>
      exists e: nat :: e < n && IsSaid(rules, ctx, elements, e, d)
    decreases n
  {
    if n > 0 {
      NodeFindingsAre(rules, ctx, elements, n - 1, d);
      AllAsked(rules, ctx, elements, n - 1, d);
      NodeFindingsLast(rules, ctx, elements, n);
      assert (exists e: nat :: e < n && IsSaid(rules, ctx, elements, e, d)) <==>
        (exists e: nat :: e < n - 1 && IsSaid(rules, ctx, elements, e, d)) || IsSaid(rules, ctx, elements, n - 1, d);
    }
  }

  lemma NodeFindingsLast<Ctx>(rules: seq<LintRule<Ctx>>, ctx: Ctx, elements: seq<Element>, n: nat)
    requires 0 < n <= |elements|
    ensures NodeFindings(rules, ctx, elements[..n])
         == NodeFindings(rules, ctx, elements[..n - 1]) + Asked(rules, |rules|, ctx, elements[n - 1])
  {
    assert elements[..n][..n - 1] == elements[..n - 1];
  }

  /** In the order of the elements, and for one element in the order of the rules. */
  lemma {:induction false} NodeFindingsInOrder<Ctx>(
      rules: seq<LintRule<Ctx>>, ctx: Ctx, before: seq<Element>, after: seq<Element>)
    ensures NodeFindings(rules, ctx, before + after)
         == NodeFindings(rules, ctx, before) + NodeFindings(rules, ctx, after)
    decreases |after|
  {
    if |after| == 0 {
      assert before + after == before;
    } else {
      var init, last := after[..|after| - 1], after[|after| - 1];
      NodeFindingsInOrder(rules, ctx, before, init);
      NodeFindingsSnoc(rules, ctx, before + init, last);
      NodeFindingsSnoc(rules, ctx, init, last);
      assert init + [last] == after && before + init + [last] == before + after;
      Regroup(NodeFindings(rules, ctx, before), NodeFindings(rules, ctx, init), Asked(rules, |rules|, ctx, last));
    }
  }

  lemma NodeFindingsSnoc<Ctx>(rules: seq<LintRule<Ctx>>, ctx: Ctx, elements: seq<Element>, el: Element)
    ensures NodeFindings(rules, ctx, elements + [el])
         == NodeFindings(rules, ctx, elements) + Asked(rules, |rules|, ctx, el)
  {
    assert (elements + [el])[..|elements|] == elements;
  }

  lemma Regroup<T>(a: seq<T>, b: seq<T>, c: seq<T>)
    ensures a + (b + c) == (a + b) + c
  {
  }

  lemma {:induction false} FileFindingsAre<Ctx>(rules: seq<LintRule<Ctx>>, n: nat, ctx: Ctx, d: Diagnostic)
    requires n <= |rules|
    ensures d in FileFindings(rules, n, ctx) <==> exists i :: 0 <= i < n && d in rules[i].checkFile(ctx)
    decreases n
  {
    if n > 0 {
      FileFindingsAre(rules, n - 1, ctx, d);
    }
  }

  lemma {:induction false} PostFindingsAre<Ctx>(
      rules: seq<LintRule<Ctx>>, n: nat, ctx: Ctx, used: seq<bool>, d: Diagnostic)
    requires n <= |rules|
    ensures d in PostFindings(rules, n, ctx, used) <==>
      exists i :: 0 <= i < n && d in rules[i].checkSuppressions(ctx, used)
    decreases n
  {
    if n > 0 {
      PostFindingsAre(rules, n - 1, ctx, used, d);
    }
  }

  /** Some rule says it of an element it is interested in, or of the file as a whole. */
  ghost predicate IsFound<Ctx>(rules: seq<LintRule<Ctx>>, ctx: Ctx, elements: seq<Element>, d: Diagnostic) {
    || (exists e: nat :: IsSaid(rules, ctx, elements, e, d))
    || (exists i :: 0 <= i < |rules| && d in rules[i].checkFile(ctx))
  }

  lemma RawFindingsAre<Ctx>(rules: seq<LintRule<Ctx>>, ctx: Ctx, elements: seq<Element>, d: Diagnostic)
    ensures d in RawFindings(rules, ctx, elements) <==> IsFound(rules, ctx, elements, d)
  {
    assert elements[..|elements|] == elements;
    NodeFindingsAre(rules, ctx, elements, |elements|, d);
    FileFindingsAre(rules, |rules|, ctx, d);
  }

  // --- The dispatch table ------------------------------------------------------

  ghost predicate NoDuplicates<T>(s: seq<T>) {
    forall i, j :: 0 <= i < j < |s| ==> s[i] != s[j]
  }

  /** How often `kind` is listed among the first `n` interests. */
  function Listed(interests: seq<Kind>, n: nat, kind: Kind): nat
    requires n <= |interests|
  {
    if n == 0 then 0 else Listed(interests, n - 1, kind) + (if interests[n - 1] == kind then 1 else 0)
  }

  function Repeat(i: nat, times: nat): seq<nat> {
    if times == 0 then [] else Repeat(i, times - 1) + [i]
  }

  /** The table row of `kind`: each of the first `n` rules once per time it lists the kind. */
  function Row<Ctx>(rules: seq<LintRule<Ctx>>, n: nat, kind: Kind): seq<nat>
    requires n <= |rules|
  {
    if n == 0 then []
    else Row(rules, n - 1, kind) + Repeat(n - 1, Listed(rules[n - 1].interests, |rules[n - 1].interests|, kind))
  }

  predicate InBounds<Ctx>(rules: seq<LintRule<Ctx>>, row: seq<nat>) {
    forall i :: 0 <= i < |row| ==> row[i] < |rules|
  }

  /** What a row of rule indices says about an element. */
  function Dispatched<Ctx>(rules: seq<LintRule<Ctx>>, row: seq<nat>, ctx: Ctx, el: Element): seq<Diagnostic>
    requires InBounds(rules, row)
  {
    if |row| == 0 then []
    else
      Dispatched(rules, row[..|row| - 1], ctx, el) + rules[row[|row| - 1]].check(ctx, el)
  }

  lemma {:induction false} ListedOnce(interests: seq<Kind>, n: nat, kind: Kind)
    requires NoDuplicates(interests) && n <= |interests|
    ensures Listed(interests, n, kind) == if kind in interests[..n] then 1 else 0
  {
    if n > 0 {
      ListedOnce(interests, n - 1, kind);
      assert interests[..n] == interests[..n - 1] + [interests[n - 1]];
    }
  }

  lemma {:induction false} RowBounds<Ctx>(rules: seq<LintRule<Ctx>>, n: nat, kind: Kind)
    requires n <= |rules|
    ensures forall i :: 0 <= i < |Row(rules, n, kind)| ==> Row(rules, n, kind)[i] < n
    ensures InBounds(rules, Row(rules, n, kind))
  {
    if n > 0 {
      RowBounds(rules, n - 1, kind);
      RepeatMembers(n - 1, Listed(rules[n - 1].interests, |rules[n - 1].interests|, kind));
    }
  }

  lemma {:induction false} RepeatMembers(i: nat, times: nat)
    ensures forall k :: 0 <= k < |Repeat(i, times)| ==> Repeat(i, times)[k] == i
  {
    if times > 0 {
      RepeatMembers(i, times - 1);
    }
  }

  /** Rules without repeated interests are dispatched to exactly as if each had been asked. */
  lemma {:induction false} TableAgreesWithAsking<Ctx>(rules: seq<LintRule<Ctx>>, n: nat, ctx: Ctx, el: Element)
    requires n <= |rules|
    requires forall r <- rules :: NoDuplicates(r.interests)
    requires InBounds(rules, Row(rules, n, el.kind))
    ensures Dispatched(rules, Row(rules, n, el.kind), ctx, el) == Asked(rules, n, ctx, el)
  {
    if n > 0 {
      var interests := rules[n - 1].interests;
      RowBounds(rules, n - 1, el.kind);
      TableAgreesWithAsking(rules, n - 1, ctx, el);
      ListedOnce(interests, |interests|, el.kind);
      assert interests[..|interests|] == interests;
      var before, row := Row(rules, n - 1, el.kind), Row(rules, n, el.kind);
      if el.kind in interests {
        assert Repeat(n - 1, 1) == Repeat(n - 1, 0) + [n - 1] == [n - 1];
        assert row == before + [n - 1];
        assert row[..|row| - 1] == before;
      } else {
        assert row == before;
      }
    }
  }

  method BuildTable<Ctx>(rules: seq<LintRule<Ctx>>, kinds: nat)
    returns (table: seq<seq<nat>>, any: bool)
    requires forall r <- rules, k <- r.interests :: k < kinds
    ensures |table| == kinds
    ensures forall k: nat :: k < kinds ==> table[k] == Row(rules, |rules|, k)
    ensures any <==> exists r <- rules :: r.interests != []
  {
    table := seq(kinds, _ => []);
    any := false;
    for i := 0 to |rules|
      invariant |table| == kinds
      invariant forall k: nat :: k < kinds ==> table[k] == Row(rules, i, k)
      invariant any <==> exists j :: 0 <= j < i && rules[j].interests != []
    {
      assert rules[i] in rules;
      table := ListInterests(table, rules[i].interests, i);
      any := any || |rules[i].interests| > 0;
    }
  }

  /** One rule is appended to the row of each kind it is interested in. */
  method ListInterests(table: seq<seq<nat>>, interests: seq<Kind>, rule: nat) returns (longer: seq<seq<nat>>)
    requires forall k <- interests :: k < |table|
    ensures |longer| == |table|
    ensures forall k: nat :: k < |table| ==>
      longer[k] == table[k] + Repeat(rule, Listed(interests, |interests|, k))
  {
    longer := table;
    for j := 0 to |interests|
      invariant |longer| == |table|
      invariant forall k: nat :: k < |table| ==> longer[k] == table[k] + Repeat(rule, Listed(interests, j, k))
    {
      assert interests[j] in interests;
      longer := longer[interests[j] := longer[interests[j]] + [rule]];
    }
  }

  // --- Choosing and splitting the rules --------------------------------------------

  datatype AnyRule<!RCtx, !DcfCtx> = R(r: LintRule<RCtx>) | Dcf(dcf: LintRule<DcfCtx>) {
    function Id(): string {
      match this case R(rule) => rule.id case Dcf(rule) => rule.id
    }

    function DefaultSeverity(): Severity {
      match this case R(rule) => rule.severity case Dcf(rule) => rule.severity
    }

    predicate DefaultEnabled() {
      match this case R(rule) => rule.enabledByDefault case Dcf(rule) => rule.enabledByDefault
    }
  }

  datatype Selection = Selection(select: Option<seq<string>>, extendSelect: seq<string>, ignore: seq<string>) {
    function Mentioned(): seq<string> {
      (match select case Some(picks) => picks case None => []) + extendSelect + ignore
    }

    /** Selected or on by default, or added, and not ignored. */
    predicate Chooses(id: string, byDefault: bool) {
      && ((match select case Some(picks) => id in picks case None => byDefault) || id in extendSelect)
      && id !in ignore
    }
  }

  function Chosen<A, B>(all: seq<AnyRule<A, B>>, selection: Selection): seq<AnyRule<A, B>> {
    if |all| == 0 then []
    else
      var last := all[|all| - 1];
      Chosen(all[..|all| - 1], selection)
      + (if selection.Chooses(last.Id(), last.DefaultEnabled()) then [last] else [])
  }

  /** What is chosen is what the selection chooses, in registry order. */
  lemma {:induction false} ChosenAre<A, B>(all: seq<AnyRule<A, B>>, selection: Selection, rule: AnyRule<A, B>)
    ensures rule in Chosen(all, selection)
       <==> rule in all && selection.Chooses(rule.Id(), rule.DefaultEnabled())
    ensures rule in Chosen(all, selection) <==>
      && rule in all && rule.Id() !in selection.ignore
      && (rule.Id() in selection.extendSelect
          || (selection.select.Some? && rule.Id() in selection.select.value)
          || (selection.select.None? && rule.DefaultEnabled()))
    decreases |all|
  {
    if |all| > 0 {
      ChosenAre(all[..|all| - 1], selection, rule);
      assert all == all[..|all| - 1] + [all[|all| - 1]];
    }
  }

  predicate IsKnown<A, B>(all: seq<AnyRule<A, B>>, id: string) {
    exists i :: 0 <= i < |all| && all[i].Id() == id
  }

  /** The ids no rule carries, each once, where it is first mentioned. */
  ghost predicate UnknownIds<A, B>(all: seq<AnyRule<A, B>>, mentioned: seq<string>, unknown: seq<string>) {
    if |mentioned| == 0 then unknown == []
    else
      var init, last := mentioned[..|mentioned| - 1], mentioned[|mentioned| - 1];
      if IsKnown(all, last) || last in init then UnknownIds(all, init, unknown)
      else |unknown| > 0 && unknown[|unknown| - 1] == last && UnknownIds(all, init, unknown[..|unknown| - 1])
  }

  lemma {:induction false} UnknownMembers<A, B>(all: seq<AnyRule<A, B>>, mentioned: seq<string>, unknown: seq<string>)
    requires UnknownIds(all, mentioned, unknown)
    ensures forall id :: id in unknown <==> id in mentioned && !IsKnown(all, id)
    ensures NoDuplicates(unknown)
  {
    if |mentioned| > 0 {
      var init, last := mentioned[..|mentioned| - 1], mentioned[|mentioned| - 1];
      assert mentioned == init + [last];
      if IsKnown(all, last) || last in init {
        UnknownMembers(all, init, unknown);
      } else {
        var others := unknown[..|unknown| - 1];
        UnknownMembers(all, init, others);
        assert unknown == others + [last];
        OneMoreDistinct(others, last);
      }
    }
  }

  lemma OneMoreDistinct(s: seq<string>, x: string)
    requires NoDuplicates(s) && x !in s
    ensures NoDuplicates(s + [x])
    ensures forall y :: y in s + [x] <==> y in s || y == x
  {
  }

  method Choose<A, B>(all: seq<AnyRule<A, B>>, selection: Selection)
    returns (chosen: seq<AnyRule<A, B>>, unknown: seq<string>)
    ensures chosen == Chosen(all, selection)
    ensures UnknownIds(all, selection.Mentioned(), unknown)
  {
    var mentioned := selection.Mentioned();
    unknown := [];
    for i := 0 to |mentioned|
      invariant UnknownIds(all, mentioned[..i], unknown)
    {
      var id := mentioned[i];
      assert mentioned[..i + 1][..i] == mentioned[..i];
      UnknownMembers(all, mentioned[..i], unknown);
      if !IsKnown(all, id) && id !in unknown {
        assert (unknown + [id])[..|unknown|] == unknown;
        unknown := unknown + [id];
      }
    }
    assert mentioned[..|mentioned|] == mentioned;
    chosen := [];
    for i := 0 to |all|
      invariant chosen == Chosen(all[..i], selection)
    {
      assert all[..i + 1][..i] == all[..i];
      if selection.Chooses(all[i].Id(), all[i].DefaultEnabled()) {
        chosen := chosen + [all[i]];
      }
    }
    assert all[..|all|] == all;
  }

  function RRules<A, B>(chosen: seq<AnyRule<A, B>>): seq<LintRule<A>> {
    if |chosen| == 0 then []
    else
      RRules(chosen[..|chosen| - 1])
      + (match chosen[|chosen| - 1] case R(rule) => [rule] case Dcf(_) => [])
  }

  function DcfRules<A, B>(chosen: seq<AnyRule<A, B>>): seq<LintRule<B>> {
    if |chosen| == 0 then []
    else
      DcfRules(chosen[..|chosen| - 1])
      + (match chosen[|chosen| - 1] case Dcf(rule) => [rule] case R(_) => [])
  }

  /** Every chosen rule runs on the files of its own grammar, and no other rule runs. */
  lemma {:induction false} SplitByGrammar<A, B>(chosen: seq<AnyRule<A, B>>, r: LintRule<A>, dcf: LintRule<B>)
    ensures r in RRules(chosen) <==> R(r) in chosen
    ensures dcf in DcfRules(chosen) <==> Dcf(dcf) in chosen
    ensures |RRules(chosen)| + |DcfRules(chosen)| == |chosen|
    decreases |chosen|
  {
    if |chosen| > 0 {
      SplitByGrammar(chosen[..|chosen| - 1], r, dcf);
      assert chosen == chosen[..|chosen| - 1] + [chosen[|chosen| - 1]];
    }
  }

  /** The severity of each chosen id, whichever grammar its rule is for. */
  function Severities<A, B>(chosen: seq<AnyRule<A, B>>): map<string, Severity> {
    if |chosen| == 0 then map[]
    else
      var last := chosen[|chosen| - 1];
      Severities(chosen[..|chosen| - 1])[last.Id() := last.DefaultSeverity()]
  }

  /** `chosen[i]` carries the id, and nothing after it does. */
  ghost predicate LastWith<A, B>(chosen: seq<AnyRule<A, B>>, id: string, i: nat) {
    i < |chosen| && chosen[i].Id() == id && forall j :: i < j < |chosen| ==> chosen[j].Id() != id
  }

  /** An id has a severity exactly when a chosen rule carries it: the last such rule's. */
  lemma {:induction false} SeveritiesAre<A, B>(chosen: seq<AnyRule<A, B>>, id: string)
    ensures if id in Severities(chosen)
            then exists i: nat :: LastWith(chosen, id, i) && Severities(chosen)[id] == chosen[i].DefaultSeverity()
            else !IsKnown(chosen, id)
    decreases |chosen|
  {
    if |chosen| > 0 {
      var init, n := chosen[..|chosen| - 1], |chosen| - 1;
      if chosen[n].Id() == id {
        assert LastWith(chosen, id, n);
      } else {
        SeveritiesAre(init, id);
        OthersKeepTheirSeverity(chosen, id);
        if i: nat :| LastWith(init, id, i) && id in Severities(init) && Severities(init)[id] == init[i].DefaultSeverity() {
          assert LastWith(chosen, id, i) && chosen[i] == init[i];
        }
      }
    }
  }

  lemma OthersKeepTheirSeverity<A, B>(chosen: seq<AnyRule<A, B>>, id: string)
    requires |chosen| > 0 && chosen[|chosen| - 1].Id() != id
    ensures var init := chosen[..|chosen| - 1];
      && (id in Severities(chosen) <==> id in Severities(init))
      && (id in Severities(chosen) ==> Severities(chosen)[id] == Severities(init)[id])
  {
  }

  /** No two rules carry one id. */
  ghost predicate DistinctIds<A, B>(rules: seq<AnyRule<A, B>>) {
    forall i, j :: 0 <= i < j < |rules| ==> rules[i].Id() != rules[j].Id()
  }

  lemma SeverityOfChosen<A, B>(chosen: seq<AnyRule<A, B>>, i: nat)
    requires DistinctIds(chosen) && i < |chosen|
    ensures chosen[i].Id() in Severities(chosen)
    ensures Severities(chosen)[chosen[i].Id()] == chosen[i].DefaultSeverity()
  {
    SeveritiesAre(chosen, chosen[i].Id());
    var id := chosen[i].Id();
    assert IsKnown(chosen, id);
    var k: nat :| LastWith(chosen, id, k) && Severities(chosen)[id] == chosen[k].DefaultSeverity();
    assert k == i;
  }

  method CollectSeverities<A, B>(chosen: seq<AnyRule<A, B>>) returns (severities: map<string, Severity>, enabled: set<string>)
    ensures severities == Severities(chosen)
    ensures forall id :: id in enabled <==> IsKnown(chosen, id)
  {
    severities, enabled := map[], {};
    for i := 0 to |chosen|
      invariant severities == Severities(chosen[..i])
      invariant forall id :: id in enabled <==> exists j :: 0 <= j < i && chosen[j].Id() == id
    {
      assert chosen[..i + 1][..i] == chosen[..i];
      severities := severities[chosen[i].Id() := chosen[i].DefaultSeverity()];
      enabled := enabled + {chosen[i].Id()};
    }
    assert chosen[..|chosen|] == chosen;
  }

  method SplitRules<A, B>(chosen: seq<AnyRule<A, B>>) returns (rules: seq<LintRule<A>>, dcfRules: seq<LintRule<B>>)
    ensures rules == RRules(chosen) && dcfRules == DcfRules(chosen)
  {
    rules, dcfRules := [], [];
    for i := 0 to |chosen|
      invariant rules == RRules(chosen[..i]) && dcfRules == DcfRules(chosen[..i])
    {
      assert chosen[..i + 1][..i] == chosen[..i];
      match chosen[i] {
        case R(rule) => rules := rules + [rule];
        case Dcf(rule) => dcfRules := dcfRules + [rule];
      }
    }
    assert chosen[..|chosen|] == chosen;
  }

  // --- Ordering the report -----------------------------------------------------------

  predicate DiagnosticLe(a: Diagnostic, b: Diagnostic) {
    || a.range.start < b.range.start
    || (a.range.start == b.range.start
        && (a.range.end < b.range.end || (a.range.end == b.range.end && TextLe(a.rule, b.rule))))
  }

  lemma DiagnosticLeIsPreorder()
    ensures TotalPreorder(DiagnosticLe)
  {
    forall a, b ensures DiagnosticLe(a, b) || DiagnosticLe(b, a) {
      TextLeIsTotal(a.rule, b.rule);
    }
    forall a, b, c | DiagnosticLe(a, b) && DiagnosticLe(b, c) ensures DiagnosticLe(a, c) {
      if TextLe(a.rule, b.rule) && TextLe(b.rule, c.rule) {
        TextLeIsTransitive(a.rule, b.rule, c.rule);
      }
    }
  }

  function Stamp(severities: map<string, Severity>, d: Diagnostic): Diagnostic {
    if d.rule in severities then d.(severity := severities[d.rule]) else d
  }

  function Stamped(severities: map<string, Severity>, ds: seq<Diagnostic>): seq<Diagnostic> {
    if |ds| == 0 then [] else Stamped(severities, ds[..|ds| - 1]) + [Stamp(severities, ds[|ds| - 1])]
  }

  method StampAndSort(severities: map<string, Severity>, all: seq<Diagnostic>) returns (report: seq<Diagnostic>)
    ensures StablySorted(DiagnosticLe, Stamped(severities, all), report)
  {
    var stamped: seq<Diagnostic> := [];
    for i := 0 to |all|
      invariant stamped == Stamped(severities, all[..i])
    {
      assert all[..i + 1][..i] == all[..i];
      stamped := stamped + [Stamp(severities, all[i])];
    }
    assert all[..|all|] == all;
    DiagnosticLeIsPreorder();
    SortIsStable(DiagnosticLe, stamped);
    report := Sort(DiagnosticLe, stamped);
  }

  // --- Running -------------------------------------------------------------------------

  /** The rules for one grammar, with their dispatch table. */
  datatype RuleTable<!Ctx> = RuleTable(rules: seq<LintRule<Ctx>>, byKind: seq<seq<nat>>, anyNodeRules: bool) {
    ghost predicate Valid() {
      && (forall r <- rules :: NoDuplicates(r.interests))
      && (forall k: nat :: k < |byKind| ==> byKind[k] == Row(rules, |rules|, k))
      && (anyNodeRules <==> exists r <- rules :: r.interests != [])
    }

    /** One traversal feeding every interested rule through the table. */
    method NodePass(ctx: Ctx, elements: seq<Element>) returns (all: seq<Diagnostic>)
      requires Valid()
      requires forall el <- elements :: el.kind < |byKind|
      ensures all == NodeFindings(rules, ctx, elements)
    {
      all := [];
      if anyNodeRules {
        for n := 0 to |elements|
          invariant all == NodeFindings(rules, ctx, elements[..n])
        {
          var el := elements[n];
          assert elements[..n + 1][..n] == elements[..n];
          RowBounds(rules, |rules|, el.kind);
          TableAgreesWithAsking(rules, |rules|, ctx, el);
          var said := Dispatch(byKind[el.kind], ctx, el);
          all := all + said;
        }
        assert elements[..|elements|] == elements;
      } else {
        NothingAsked(ctx, elements);
      }
    }

    method Dispatch(row: seq<nat>, ctx: Ctx, el: Element) returns (said: seq<Diagnostic>)
      requires InBounds(rules, row)
      ensures said == Dispatched(rules, row, ctx, el)
    {
      said := [];
      for j := 0 to |row|
        invariant said == Dispatched(rules, row[..j], ctx, el)
      {
        assert row[..j + 1][..j] == row[..j];
        said := said + rules[row[j]].check(ctx, el);
      }
      assert row[..|row|] == row;
    }

    lemma {:induction false} NothingAsked(ctx: Ctx, elements: seq<Element>)
      requires forall r <- rules :: r.interests == []
      ensures NodeFindings(rules, ctx, elements) == []
      decreases |elements|
    {
      if |elements| > 0 {
        NothingAsked(ctx, elements[..|elements| - 1]);
        NobodyAsked(ctx, elements[|elements| - 1], |rules|);
      }
    }

    lemma {:induction false} NobodyAsked(ctx: Ctx, el: Element, n: nat)
      requires n <= |rules| && forall r <- rules :: r.interests == []
      ensures Asked(rules, n, ctx, el) == []
    {
      if n > 0 {
        NobodyAsked(ctx, el, n - 1);
        assert rules[n - 1] in rules;
      }
    }

    /** The traversal, then each rule's look at the whole file. */
    method RawPass(ctx: Ctx, elements: seq<Element>) returns (all: seq<Diagnostic>)
      requires Valid()
      requires forall el <- elements :: el.kind < |byKind|
      ensures all == RawFindings(rules, ctx, elements)
    {
      all := NodePass(ctx, elements);
      for i := 0 to |rules|
        invariant all == NodeFindings(rules, ctx, elements) + FileFindings(rules, i, ctx)
      {
        all := all + rules[i].checkFile(ctx);
      }
    }

    /** Each rule's look at which directives were used. */
    method PostPass(ctx: Ctx, used: seq<bool>) returns (post: seq<Diagnostic>)
      ensures post == PostFindings(rules, |rules|, ctx, used)
    {
      post := [];
      for i := 0 to |rules|
        invariant post == PostFindings(rules, i, ctx, used)
      {
        post := post + rules[i].checkSuppressions(ctx, used);
      }
    }
  }

  /** Interests are kinds of the grammar, and no rule lists one twice. */
  ghost predicate WithinKinds<Ctx>(rules: seq<LintRule<Ctx>>, kinds: nat) {
    && (forall r <- rules, k <- r.interests :: k < kinds)
    && (forall r <- rules :: NoDuplicates(r.interests))
  }

  method Tabulate<Ctx>(rules: seq<LintRule<Ctx>>, kinds: nat) returns (table: RuleTable<Ctx>)
    requires WithinKinds(rules, kinds)
    ensures table.Valid() && table.rules == rules && |table.byKind| == kinds
  {
    var byKind, anyNodeRules := BuildTable(rules, kinds);
    table := RuleTable(rules, byKind, anyNodeRules);
  }

  ghost predicate Registered<A, B>(all: seq<AnyRule<A, B>>, kinds: nat, dcfKinds: nat) {
    forall rule <- all :: IsRegistered(rule, kinds, dcfKinds)
  }

  ghost predicate IsRegistered<A, B>(rule: AnyRule<A, B>, kinds: nat, dcfKinds: nat) {
    match rule case R(r) => WithinKinds([r], kinds) case Dcf(d) => WithinKinds([d], dcfKinds)
  }

  lemma ChosenAreRegistered<A, B>(all: seq<AnyRule<A, B>>, selection: Selection, kinds: nat, dcfKinds: nat)
    requires Registered(all, kinds, dcfKinds)
    ensures Registered(Chosen(all, selection), kinds, dcfKinds)
  {
    forall rule <- Chosen(all, selection) ensures rule in all {
      ChosenAre(all, selection, rule);
    }
  }

  lemma {:induction false} SplitIsWithinKinds<A, B>(chosen: seq<AnyRule<A, B>>, kinds: nat, dcfKinds: nat)
    requires Registered(chosen, kinds, dcfKinds)
    ensures WithinKinds(RRules(chosen), kinds) && WithinKinds(DcfRules(chosen), dcfKinds)
    decreases |chosen|
  {
    if |chosen| > 0 {
      var init, last := chosen[..|chosen| - 1], chosen[|chosen| - 1];
      assert chosen == init + [last];
      assert forall rule :: rule in init ==> rule in chosen;
      SplitIsWithinKinds(init, kinds, dcfKinds);
      assert IsRegistered(last, kinds, dcfKinds);
      match last {
        case R(r) => assert r in [r];
        case Dcf(d) => assert d in [d];
      }
    }
  }

  /** The derived state of a rule set: everything that does not depend on the file. */
  class ResolvedRules<!RCtx, !DcfCtx> {
    const rules: RuleTable<RCtx>
    const dcf: RuleTable<DcfCtx>
    const severities: map<string, Severity>
    const enabled: set<string>

    /** The state is that of the rules `chosen`. */
    ghost predicate IsFor(chosen: seq<AnyRule<RCtx, DcfCtx>>) {
      && rules.Valid() && rules.rules == RRules(chosen)
      && dcf.Valid() && dcf.rules == DcfRules(chosen)
      && severities == Severities(chosen)
      && (forall id :: id in enabled <==> IsKnown(chosen, id))
    }

    constructor WithConfig(chosen: seq<AnyRule<RCtx, DcfCtx>>, kinds: nat, dcfKinds: nat)
      requires Registered(chosen, kinds, dcfKinds)
      ensures IsFor(chosen) && |rules.byKind| == kinds && |dcf.byKind| == dcfKinds
    {
      var severities, enabled := CollectSeverities(chosen);
      var r, d := SplitRules(chosen);
      SplitIsWithinKinds(chosen, kinds, dcfKinds);
      var rTable := Tabulate(r, kinds);
      var dcfTable := Tabulate(d, dcfKinds);
      this.rules, this.dcf, this.severities, this.enabled := rTable, dcfTable, severities, enabled;
    }

    /** The rule set of a configuration, and the names in it that no rule carries. */
    static method Resolve(
        all: seq<AnyRule<RCtx, DcfCtx>>, selection: Selection, kinds: nat, dcfKinds: nat)
      returns (resolved: ResolvedRules<RCtx, DcfCtx>, unknown: seq<string>)
      requires Registered(all, kinds, dcfKinds)
      ensures resolved.IsFor(Chosen(all, selection))
      ensures |resolved.rules.byKind| == kinds && |resolved.dcf.byKind| == dcfKinds
      ensures UnknownIds(all, selection.Mentioned(), unknown)
    {
      var chosen;
      chosen, unknown := Choose(all, selection);
      ChosenAreRegistered(all, selection, kinds, dcfKinds);
      resolved := new ResolvedRules.WithConfig(chosen, kinds, dcfKinds);
    }

    /** The whole pipeline for one R file. */
    method RunRules(ctx: RCtx, elements: seq<Element>, suppressions: SuppressionMap)
      returns (report: seq<Diagnostic>)
      requires rules.Valid() && suppressions.Valid()
      requires forall el <- elements :: el.kind < |rules.byKind|
      ensures Reports(rules.rules, severities, suppressions.directives, suppressions.malformed, ctx, elements, report)
    {
      var all := rules.RawPass(ctx, elements);
      var kept, used := suppressions.Filter(all);
      var post := rules.PostPass(ctx, used);
      var retained := Retain(suppressions, post);
      report := StampAndSort(severities, kept + retained);
    }

    /** The same for a `DESCRIPTION`, which has no post-pass. */
    method RunDcfRules(ctx: DcfCtx, elements: seq<Element>, suppressions: SuppressionMap)
      returns (report: seq<Diagnostic>)
      requires dcf.Valid() && suppressions.Valid()
      requires forall el <- elements :: el.kind < |dcf.byKind|
      ensures StablySorted(DiagnosticLe,
                Stamped(severities,
                  Kept(suppressions.directives, suppressions.malformed, RawFindings(dcf.rules, ctx, elements))),
                report)
    {
      var all := dcf.RawPass(ctx, elements);
      var kept, _ := suppressions.Filter(all);
      report := StampAndSort(severities, kept);
    }
  }

  /** Drop suppressed post-pass findings without touching the usage record. */
  method Retain(suppressions: SuppressionMap, post: seq<Diagnostic>) returns (retained: seq<Diagnostic>)
    requires suppressions.Valid()
    ensures retained == Kept(suppressions.directives, suppressions.malformed, post)
  {
    retained := [];
    for i := 0 to |post|
      invariant retained == Kept(suppressions.directives, suppressions.malformed, post[..i])
    {
      assert post[..i + 1][..i] == post[..i];
      var suppressed := suppressions.IsSuppressed(post[i].rule, post[i].range);
      if !suppressed {
        retained := retained + [post[i]];
      }
    }
    assert post[..|post|] == post;
  }

  /**
   * The report of a file: the naive findings that are not suppressed, plus the
   * unsuppressed post-pass findings about the directives the naive findings
   * used, stamped and stably sorted by range and rule.
   */
  ghost predicate Reports<Ctx>(
      rules: seq<LintRule<Ctx>>, severities: map<string, Severity>,
      directives: seq<Directive>, broken: seq<Range>,
      ctx: Ctx, elements: seq<Element>, report: seq<Diagnostic>)
  {
    var raw := RawFindings(rules, ctx, elements);
    exists used: seq<bool> ::
      && UsedExactly(directives, broken, raw, used)
      && StablySorted(DiagnosticLe,
           Stamped(severities,
             Kept(directives, broken, raw) + Kept(directives, broken, PostFindings(rules, |rules|, ctx, used))),
           report)
  }

  /** There is one such report, so the table and the traversal order leave no trace in it. */
  lemma ReportIsDetermined<Ctx>(
      rules: seq<LintRule<Ctx>>, severities: map<string, Severity>,
      directives: seq<Directive>, broken: seq<Range>,
      ctx: Ctx, elements: seq<Element>, report: seq<Diagnostic>, other: seq<Diagnostic>)
    requires Reports(rules, severities, directives, broken, ctx, elements, report)
    requires Reports(rules, severities, directives, broken, ctx, elements, other)
    ensures report == other
  {
    var raw := RawFindings(rules, ctx, elements);
    var used: seq<bool> :|
      && UsedExactly(directives, broken, raw, used)
      && StablySorted(DiagnosticLe,
           Stamped(severities,
             Kept(directives, broken, raw) + Kept(directives, broken, PostFindings(rules, |rules|, ctx, used))),
           report);
    var used': seq<bool> :|
      && UsedExactly(directives, broken, raw, used')
      && StablySorted(DiagnosticLe,
           Stamped(severities,
             Kept(directives, broken, raw) + Kept(directives, broken, PostFindings(rules, |rules|, ctx, used'))),
           other);
    assert used == used' by {
      assert forall i :: 0 <= i < |used| ==> used[i] == used'[i];
    }
    DiagnosticLeIsPreorder();
    StablySortedIsUnique(DiagnosticLe,
      Stamped(severities,
        Kept(directives, broken, raw) + Kept(directives, broken, PostFindings(rules, |rules|, ctx, used))),
      report, other);
  }

  /** A finding with the severity set for its rule, if any is. */
  predicate IsStamped(severities: map<string, Severity>, d: Diagnostic, f: Diagnostic) {
    && d.rule == f.rule && d.range == f.range && d.message == f.message && d.fix == f.fix
    && d.severity == if f.rule in severities then severities[f.rule] else f.severity
  }

  lemma {:induction false} StampedIff(severities: map<string, Severity>, ds: seq<Diagnostic>, d: Diagnostic)
    ensures d in Stamped(severities, ds) <==> exists f :: f in ds && IsStamped(severities, d, f)
    decreases |ds|
  {
    if |ds| > 0 {
      var init, last := ds[..|ds| - 1], ds[|ds| - 1];
      StampedIff(severities, init, d);
      assert ds == init + [last];
      assert IsStamped(severities, d, last) <==> d == Stamp(severities, last);
    }
  }

  /** Some rule says it in the post-pass, knowing which directives hide something found before. */
  ghost predicate IsFoundAfter<Ctx>(
      rules: seq<LintRule<Ctx>>, directives: seq<Directive>, broken: seq<Range>,
      ctx: Ctx, elements: seq<Element>, d: Diagnostic)
  {
    exists used: seq<bool>, i: nat ::
      i < |rules| && d in rules[i].checkSuppressions(ctx, used)
      && UsedExactly(directives, broken, RawFindings(rules, ctx, elements), used)
  }

  /**
   * The report of a file with these comments: what some rule says, with its
   * severity, and what no comment tells the linter to drop.
   */
  lemma ReportedIff<Ctx>(
      rules: seq<LintRule<Ctx>>, severities: map<string, Severity>,
      comments: seq<Comment>, endOfFile: nat, directives: seq<Directive>,
      ctx: Ctx, elements: seq<Element>, report: seq<Diagnostic>, d: Diagnostic)
    requires Closed(Placed(comments), directives, endOfFile) && d.range.Ordered()
    requires Reports(rules, severities, directives, Broken(comments), ctx, elements, report)
    ensures d in report <==>
      && (forall i: nat :: !HiddenBy(comments, i, d.rule, d.range, endOfFile))
      && exists f :: IsStamped(severities, d, f)
           && (IsFound(rules, ctx, elements, f)
               || IsFoundAfter(rules, directives, Broken(comments), ctx, elements, f))
  {
    var raw, broken := RawFindings(rules, ctx, elements), Broken(comments);
    var used: seq<bool> :|
      && UsedExactly(directives, broken, raw, used)
      && StablySorted(DiagnosticLe,
           Stamped(severities,
             Kept(directives, broken, raw) + Kept(directives, broken, PostFindings(rules, |rules|, ctx, used))),
           report);
    var post := PostFindings(rules, |rules|, ctx, used);
    var all := Kept(directives, broken, raw) + Kept(directives, broken, post);
    DiagnosticLeIsPreorder();
    StableSortKeepsMembers(DiagnosticLe, Stamped(severities, all), report, d);
    StampedIff(severities, all, d);
    forall f | IsStamped(severities, d, f)
      ensures f in raw <==> IsFound(rules, ctx, elements, f)
      ensures f in post <==> IsFoundAfter(rules, directives, broken, ctx, elements, f)
      ensures Suppressed(directives, broken, f.rule, f.range)
         <==> exists i: nat :: HiddenBy(comments, i, d.rule, d.range, endOfFile)
    {
      RawFindingsAre(rules, ctx, elements, f);
      PostIsFoundAfter(rules, directives, broken, ctx, elements, used, f);
      DroppedIff(comments, directives, [f], f, endOfFile);
      assert f in Kept(directives, broken, [f]) <==> !Suppressed(directives, broken, f.rule, f.range);
    }
  }

  lemma PostIsFoundAfter<Ctx>(
      rules: seq<LintRule<Ctx>>, directives: seq<Directive>, broken: seq<Range>,
      ctx: Ctx, elements: seq<Element>, used: seq<bool>, d: Diagnostic)
    requires UsedExactly(directives, broken, RawFindings(rules, ctx, elements), used)
    ensures d in PostFindings(rules, |rules|, ctx, used)
       <==> IsFoundAfter(rules, directives, broken, ctx, elements, d)
  {
    PostFindingsAre(rules, |rules|, ctx, used, d);
    forall other: seq<bool> | UsedExactly(directives, broken, RawFindings(rules, ctx, elements), other)
      ensures other == used
    {
    }
  }

  /** A report goes by where a finding starts, then by where it ends, then by the rule. */
  lemma ReportIsInOrder<Ctx>(
      rules: seq<LintRule<Ctx>>, severities: map<string, Severity>,
      directives: seq<Directive>, broken: seq<Range>,
      ctx: Ctx, elements: seq<Element>, report: seq<Diagnostic>, i: nat, j: nat)
    requires Reports(rules, severities, directives, broken, ctx, elements, report)
    requires i < j < |report|
    ensures report[i].range.start <= report[j].range.start
    ensures report[i].range.start == report[j].range.start ==> report[i].range.end <= report[j].range.end
    ensures report[i].range == report[j].range ==>
      report[i].rule <= report[j].rule || exists n: nat :: FirstLower(report[i].rule, report[j].rule, n)
  {
    TextLeIff(report[i].rule, report[j].rule);
    assert DiagnosticLe(report[i], report[j]);
  }

  // --- From the configuration to the report ----------------------------------------------

  lemma {:induction false} StampedAreStamped(severities: map<string, Severity>, ds: seq<Diagnostic>, d: Diagnostic)
    requires d in Stamped(severities, ds)
    ensures d.rule in severities ==> d.severity == severities[d.rule]
    decreases |ds|
  {
    if |ds| > 0 && d in Stamped(severities, ds[..|ds| - 1]) {
      StampedAreStamped(severities, ds[..|ds| - 1], d);
    }
  }

  /**
   * Whatever a finding was built with, it is reported with the severity of the
   * rule whose id it carries, for R files and `DESCRIPTION` files alike.
   */
  lemma ReportedSeverityIsTheRules<A, B>(
      all: seq<AnyRule<A, B>>, selection: Selection, found: seq<Diagnostic>, report: seq<Diagnostic>,
      rule: AnyRule<A, B>, d: Diagnostic)
    requires DistinctIds(all) && rule in all && selection.Chooses(rule.Id(), rule.DefaultEnabled())
    requires StablySorted(DiagnosticLe, Stamped(Severities(Chosen(all, selection)), found), report)
    requires d in report && d.rule == rule.Id()
    ensures d.severity == rule.DefaultSeverity()
  {
    var chosen := Chosen(all, selection);
    DiagnosticLeIsPreorder();
    StableSortKeepsMembers(DiagnosticLe, Stamped(Severities(chosen), found), report, d);
    StampedAreStamped(Severities(chosen), found, d);
    ChosenAre(all, selection, rule);
    ChosenKeepsDistinct(all, selection);
    var i :| 0 <= i < |chosen| && chosen[i] == rule;
    SeverityOfChosen(chosen, i);
  }

  lemma {:induction false} ChosenKeepsDistinct<A, B>(all: seq<AnyRule<A, B>>, selection: Selection)
    requires DistinctIds(all)
    ensures DistinctIds(Chosen(all, selection))
    decreases |all|
  {
    if |all| > 0 {
      var init, last := all[..|all| - 1], all[|all| - 1];
      ChosenKeepsDistinct(init, selection);
      forall rule <- Chosen(init, selection) ensures rule.Id() != last.Id() {
        ChosenAre(init, selection, rule);
      }
    }
  }

  /** A rule runs on the files of its grammar exactly when it is selected, on by default, or added, and not ignored. */
  lemma RuleRunsIff<A, B>(all: seq<AnyRule<A, B>>, selection: Selection, r: LintRule<A>, dcf: LintRule<B>)
    ensures r in RRules(Chosen(all, selection)) <==>
      && R(r) in all && r.id !in selection.ignore
      && (r.id in selection.extendSelect
          || match selection.select case Some(picks) => r.id in picks case None => r.enabledByDefault)
    ensures dcf in DcfRules(Chosen(all, selection)) <==>
      && Dcf(dcf) in all && dcf.id !in selection.ignore
      && (dcf.id in selection.extendSelect
          || match selection.select case Some(picks) => dcf.id in picks case None => dcf.enabledByDefault)
  {
    SplitByGrammar(Chosen(all, selection), r, dcf);
    ChosenAre(all, selection, R(r));
    ChosenAre(all, selection, Dcf(dcf));
  }

  /** And a finding is stamped with the severity of the rule that runs. */
  lemma RunningRulesSeverity<A, B>(all: seq<AnyRule<A, B>>, selection: Selection, r: LintRule<A>, dcf: LintRule<B>)
    requires DistinctIds(all)
    ensures var chosen := Chosen(all, selection);
      r in RRules(chosen) ==> r.id in Severities(chosen) && Severities(chosen)[r.id] == r.severity
    ensures var chosen := Chosen(all, selection);
      dcf in DcfRules(chosen) ==> dcf.id in Severities(chosen) && Severities(chosen)[dcf.id] == dcf.severity
  {
    var chosen := Chosen(all, selection);
    SplitByGrammar(chosen, r, dcf);
    ChosenKeepsDistinct(all, selection);
    if R(r) in chosen {
      var i :| 0 <= i < |chosen| && chosen[i] == R(r);
      SeverityOfChosen(chosen, i);
    }
    if Dcf(dcf) in chosen {
      var i :| 0 <= i < |chosen| && chosen[i] == Dcf(dcf);
      SeverityOfChosen(chosen, i);
    }
  }

  /** A name is reported as unknown exactly when the configuration mentions it and no rule carries it. */
  lemma UnknownIff<A, B>(all: seq<AnyRule<A, B>>, selection: Selection, unknown: seq<string>, id: string)
    requires UnknownIds(all, selection.Mentioned(), unknown)
    ensures id in unknown <==>
      && (id in selection.extendSelect || id in selection.ignore
          || (selection.select.Some? && id in selection.select.value))
      && forall rule :: rule in all ==> rule.Id() != id
  {
    UnknownMembers(all, selection.Mentioned(), unknown);
    if rule :| rule in all && rule.Id() == id {
      var i :| 0 <= i < |all| && all[i] == rule;
      assert IsKnown(all, id);
    }
  }

  /** A rule set has an id enabled exactly when the selection chooses a rule that carries it. */
  lemma EnabledIffChosen<A, B>(all: seq<AnyRule<A, B>>, selection: Selection, id: string)
    ensures IsKnown(Chosen(all, selection), id)
       <==> exists rule :: rule in all && rule.Id() == id && selection.Chooses(id, rule.DefaultEnabled())
  {
    var chosen := Chosen(all, selection);
    if i :| 0 <= i < |chosen| && chosen[i].Id() == id {
      ChosenAre(all, selection, chosen[i]);
    }
    if rule :| rule in all && rule.Id() == id && selection.Chooses(id, rule.DefaultEnabled()) {
      ChosenAre(all, selection, rule);
      var i :| 0 <= i < |chosen| && chosen[i] == rule;
      assert IsKnown(chosen, id);
    }
  }
}
