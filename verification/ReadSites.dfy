/** The bindings a read reaches, after `src/semantic/builder.rs`. */
module ReadSites {
  import opened Common
  import opened Scopes
  import opened StableSort

  // `reads_reached` and `resolve_reads`, and the occurrences of a variable that
  // `src/lsp/navigation.rs` gathers from them.

  /** Within one frame a read sees what is assigned before it, around it in a loop, or, if deferred, anywhere. */
  predicate Ordered(b: Binding, ident: Ident) {
    || b.defRange.start < ident.range.start
    || (b.loopRange.Some? && b.loopRange.value.Contains(ident.range))
    || ident.deferred
  }

  predicate Hit(t: Tree, ident: Ident, inFrame: bool, b: BindingId)
    requires b < |t.bindings|
  {
    t.bindings[b].defRange != ident.range && (inFrame ==> Ordered(t.bindings[b], ident))
  }

  /** The bindings of `ids` that the read can mean, in order. */
  function Hits(t: Tree, ident: Ident, inFrame: bool, ids: seq<BindingId>): seq<BindingId>
    requires Known(t, ids)
  {
    if |ids| == 0 then []
    else
      var last := ids[|ids| - 1];
      Hits(t, ident, inFrame, ids[..|ids| - 1]) + (if Hit(t, ident, inFrame, last) then [last] else [])
  }

  lemma {:induction false} HitsAre(t: Tree, ident: Ident, inFrame: bool, ids: seq<BindingId>)
    requires Known(t, ids)
    ensures forall b :: b in Hits(t, ident, inFrame, ids) <==> b in ids && Hit(t, ident, inFrame, b)
    decreases |ids|
  {
    if |ids| > 0 {
      var init, last := ids[..|ids| - 1], ids[|ids| - 1];
      HitsAre(t, ident, inFrame, init);
      assert ids == init + [last];
    }
  }

  /** The bindings declared in `scope` under a name. */
  function NamedIn(t: Tree, scope: ScopeId, key: string): (named: seq<BindingId>)
    requires WellFormed(t) && scope < |t.scopes|
    ensures Known(t, named)
    ensures forall b :: b in named <==> b in t.scopes[scope].bindings && Key(t.bindings[b].name) == key
  {
    NamedAre(t, t.scopes[scope].bindings, key);
    Named(t, t.scopes[scope].bindings, key)
  }

  predicate EndsFrame(s: Scope) {
    s.kind == Function || s.kind == File
  }

  function ReachedFrom(t: Tree, ident: Ident, scope: ScopeId, inFrame: bool): seq<BindingId>
    requires WellFormed(t) && scope < |t.scopes|
    decreases scope
  {
    var hits := Hits(t, ident, inFrame, NamedIn(t, scope, Key(ident.name)));
    if hits != [] then hits
    else match t.scopes[scope].parent
      case Some(p) => ReachedFrom(t, ident, p, inFrame && !EndsFrame(t.scopes[scope]))
      case None => []
  }

  /** What a read reaches has its name and is declared in a scope around it. */
  lemma {:induction false} ReachedAreOutward(t: Tree, ident: Ident, scope: ScopeId, inFrame: bool)
    requires WellFormed(t) && scope < |t.scopes|
    ensures forall b :: b in ReachedFrom(t, ident, scope, inFrame) ==>
      b < |t.bindings| && t.bindings[b].scope <= scope && Key(t.bindings[b].name) == Key(ident.name)
    decreases scope
  {
    var named := NamedIn(t, scope, Key(ident.name));
    HitsAre(t, ident, inFrame, named);
    if Hits(t, ident, inFrame, named) == [] && t.scopes[scope].parent.Some? {
      ReachedAreOutward(t, ident, t.scopes[scope].parent.value, inFrame && !EndsFrame(t.scopes[scope]));
    }
  }

  /** The bindings of the innermost scope around the read that has any it can mean. */
  function Reached(t: Tree, ident: Ident): seq<BindingId>
    requires WellFormed(t) && ident.scope < |t.scopes|
  {
    ReachedFrom(t, ident, ident.scope, true)
  }

  method Filter(model: SemanticModel, ident: Ident, inFrame: bool, named: seq<BindingId>)
    returns (hits: seq<BindingId>)
    requires Known(model.View(), named)
    ensures hits == Hits(model.View(), ident, inFrame, named)
  {
    hits := [];
    for i := 0 to |named|
      invariant Known(model.View(), named[..i]) && hits == Hits(model.View(), ident, inFrame, named[..i])
    {
      assert named[..i + 1][..i] == named[..i];
      var b := model.bindings[named[i]];
      if b.defRange != ident.range && (!inFrame || Ordered(b, ident)) {
        hits := hits + [named[i]];
      }
    }
    assert named[..|named|] == named;
  }

  /** The walk outward over the name index. */
  method ReadsReached(model: SemanticModel, ident: Ident) returns (reached: seq<BindingId>)
    requires model.Valid() && ident.scope < |model.scopes|
    ensures reached == Reached(model.View(), ident)
  {
    ghost var t := model.View();
    var current: Option<ScopeId> := Some(ident.scope);
    var inFrame := true;
    while current.Some?
      invariant current.Some? ==> current.value < |model.scopes|
      invariant Reached(t, ident)
             == match current case Some(s) => ReachedFrom(t, ident, s, inFrame) case None => []
      decreases if current.Some? then current.value + 1 else 0
    {
      var scope := model.scopes[current.value];
      var named := model.ScopeBindingsNamed(current.value, ident.name);
      assert IndexedAt(t, model.bindingsByName, current.value, Key(ident.name));
      assert named == NamedIn(t, current.value, Key(ident.name));
      var hits := Filter(model, ident, inFrame, named);
      if hits != [] {
        return hits;
      }
      if scope.kind == Function || scope.kind == File {
        inFrame := false;
      }
      current := scope.parent;
    }
    return [];
  }

  // --- The two directions of the edges -----------------------------------------------

  predicate Placed(t: Tree, idents: seq<Ident>) {
    forall i :: 0 <= i < |idents| ==> idents[i].scope < |t.scopes|
  }

  /** For every read the bindings it reaches. */
  function Edges(t: Tree, idents: seq<Ident>): (edges: seq<seq<BindingId>>)
    requires WellFormed(t) && Placed(t, idents)
    ensures |edges| == |idents|
    ensures forall i :: 0 <= i < |idents| ==> edges[i] == Reached(t, idents[i])
  {
    seq(|idents|, i requires 0 <= i < |idents| => Reached(t, idents[i]))
  }

  /** The reads among the first `n` that reach `b`, once for each time they do. */
  function ReadersBelow(edges: seq<seq<BindingId>>, b: BindingId, n: nat): seq<nat>
    requires n <= |edges|
  {
    if n == 0 then []
    else ReadersBelow(edges, b, n - 1) + Times(n - 1, multiset(edges[n - 1])[b])
  }

  lemma {:induction false} ReadersAre(edges: seq<seq<BindingId>>, b: BindingId, n: nat)
    requires n <= |edges|
    ensures forall i: nat :: i in ReadersBelow(edges, b, n) <==> i < n && b in edges[i]
  {
    if n > 0 {
      ReadersAre(edges, b, n - 1);
    }
  }

  function Times(i: nat, count: nat): (copies: seq<nat>)
    ensures |copies| == count && forall k :: k in copies ==> k == i
    ensures count > 0 ==> i in copies
  {
    if count == 0 then [] else Times(i, count - 1) + [i]
  }

  /** Each binding's entry lists its readers among the first `n`. */
  ghost predicate Recorded(bindingReads: seq<seq<nat>>, edges: seq<seq<BindingId>>, n: nat)
    requires n <= |edges|
  {
    forall b: nat :: b < |bindingReads| ==> bindingReads[b] == ReadersBelow(edges, b, n)
  }

  /** One pass over the reads fills both directions: the bindings each read reaches, the reads reaching each binding. */
  method ResolveReads(model: SemanticModel, idents: seq<Ident>)
    returns (bindingReads: seq<seq<nat>>, identBindings: seq<seq<BindingId>>)
    requires model.Valid() && Placed(model.View(), idents)
    ensures identBindings == Edges(model.View(), idents)
    ensures |bindingReads| == |model.bindings| && Recorded(bindingReads, identBindings, |idents|)
  {
    ghost var edges := Edges(model.View(), idents);
    bindingReads := seq(|model.bindings|, _ => []);
    identBindings := [];
    for i := 0 to |idents|
      invariant identBindings == edges[..i]
      invariant |bindingReads| == |model.bindings| && Recorded(bindingReads, edges, i)
    {
      var reached := ReadsReached(model, idents[i]);
      ReachedAreKnown(model.View(), idents[i]);
      bindingReads := RecordReads(bindingReads, reached, i, edges);
      Snoc(edges, i);
      identBindings := identBindings + [reached];
    }
    Whole(edges);
  }

  lemma Snoc<T>(s: seq<T>, i: nat)
    requires i < |s|
    ensures s[..i + 1] == s[..i] + [s[i]]
  {
  }

  lemma Whole<T>(s: seq<T>)
    ensures s[..|s|] == s
  {
  }

  lemma ReachedAreKnown(t: Tree, ident: Ident)
    requires WellFormed(t) && ident.scope < |t.scopes|
    ensures Known(t, Reached(t, ident))
  {
    ReachedAreOutward(t, ident, ident.scope, true);
    assert forall i :: 0 <= i < |Reached(t, ident)| ==> Reached(t, ident)[i] in Reached(t, ident);
  }

  /** The inner loop: one read is added to every binding it reaches. */
  method RecordReads(
      bindingReads: seq<seq<nat>>, reached: seq<BindingId>, ident: nat, ghost edges: seq<seq<BindingId>>)
    returns (recorded: seq<seq<nat>>)
    requires ident < |edges| && reached == edges[ident] && Recorded(bindingReads, edges, ident)
    requires forall j :: 0 <= j < |reached| ==> reached[j] < |bindingReads|
    ensures |recorded| == |bindingReads| && Recorded(recorded, edges, ident + 1)
  {
    recorded := bindingReads;
    for j := 0 to |reached|
      invariant |recorded| == |bindingReads|
      invariant forall b: nat :: b < |recorded| ==>
        recorded[b] == bindingReads[b] + Times(ident, multiset(reached[..j])[b])
    {
      OneMoreReader(reached, j, ident);
      recorded := recorded[reached[j] := recorded[reached[j]] + [ident]];
    }
    Whole(reached);
  }

  lemma OneMoreReader(reached: seq<BindingId>, j: nat, ident: nat)
    requires j < |reached|
    ensures forall b: nat ::
      Times(ident, multiset(reached[..j + 1])[b])
      == Times(ident, multiset(reached[..j])[b]) + (if b == reached[j] then [ident] else [])
  {
    Snoc(reached, j);
  }

  // --- The reads of a variable ----------------------------------------------------------

  function RangesOf(idents: seq<Ident>, readers: seq<nat>): seq<Range>
    requires forall k :: 0 <= k < |readers| ==> readers[k] < |idents|
  {
    seq(|readers|, k requires 0 <= k < |readers| => idents[readers[k]].range)
  }

  /** The spans of the reads that reach `b`. */
  function SpansReading(idents: seq<Ident>, edges: seq<seq<BindingId>>, b: BindingId): seq<Range>
    requires |edges| == |idents|
  {
    var readers := ReadersBelow(edges, b, |edges|);
    ReadersAre(edges, b, |edges|);
    assert forall k :: 0 <= k < |readers| ==> readers[k] in readers;
    RangesOf(idents, readers)
  }

  /** Some read at `range` reaches `b`. */
  predicate IsReadAt(idents: seq<Ident>, edges: seq<seq<BindingId>>, b: BindingId, range: Range)
    requires |edges| == |idents|
  {
    exists i :: 0 <= i < |idents| && idents[i].range == range && b in edges[i]
  }

  lemma SpansReadingAre(idents: seq<Ident>, edges: seq<seq<BindingId>>, b: BindingId, r: Range)
    requires |edges| == |idents|
    ensures r in SpansReading(idents, edges, b) <==> IsReadAt(idents, edges, b, r)
  {
    var readers := ReadersBelow(edges, b, |edges|);
    ReadersAre(edges, b, |edges|);
    if IsReadAt(idents, edges, b, r) {
      var i :| 0 <= i < |idents| && idents[i].range == r && b in edges[i];
      assert i in readers;
      var k :| 0 <= k < |readers| && readers[k] == i;
      assert SpansReading(idents, edges, b)[k] == r;
    }
    if r in SpansReading(idents, edges, b) {
      var k :| 0 <= k < |readers| && SpansReading(idents, edges, b)[k] == r;
      assert readers[k] in readers;
    }
  }

  function CohortSpans(idents: seq<Ident>, edges: seq<seq<BindingId>>, cohort: seq<BindingId>): seq<Range>
    requires |edges| == |idents|
  {
    if |cohort| == 0 then []
    else
      CohortSpans(idents, edges, cohort[..|cohort| - 1])
      + SpansReading(idents, edges, cohort[|cohort| - 1])
  }

  lemma {:induction false} CohortSpansAre(
      idents: seq<Ident>, edges: seq<seq<BindingId>>, cohort: seq<BindingId>, r: Range)
    requires |edges| == |idents|
    ensures r in CohortSpans(idents, edges, cohort) <==> exists b :: b in cohort && IsReadAt(idents, edges, b, r)
    decreases |cohort|
  {
    if |cohort| > 0 {
      var init, last := cohort[..|cohort| - 1], cohort[|cohort| - 1];
      assert cohort == init + [last];
      CohortSpansAre(idents, edges, init, r);
      SpansReadingAre(idents, edges, last, r);
    }
  }

  predicate StartLe(a: Range, b: Range) {
    a.start <= b.start
  }

  /** The reads of the variable a binding belongs to, by start, neighbours merged. */
  function VariableReads(t: Tree, idents: seq<Ident>, b: BindingId): (spans: seq<Range>)
    requires WellFormed(t) && Placed(t, idents) && b < |t.bindings|
  {
    Dedup(Sort(StartLe, CohortSpans(idents, Edges(t, idents), Cohort(t, b))))
  }

  lemma VariableReadsAre(t: Tree, idents: seq<Ident>, b: BindingId, r: Range)
    requires WellFormed(t) && Placed(t, idents) && b < |t.bindings|
    ensures r in VariableReads(t, idents, b)
       <==> exists c :: c in Cohort(t, b) && IsReadAt(idents, Edges(t, idents), c, r)
  {
    var spans := CohortSpans(idents, Edges(t, idents), Cohort(t, b));
    CohortSpansAre(idents, Edges(t, idents), Cohort(t, b), r);
    assert r in Sort(StartLe, spans) <==> r in multiset(Sort(StartLe, spans));
    assert r in spans <==> r in multiset(spans);
  }

  /** They go by where they start, and no two neighbours are the same. */
  lemma VariableReadsInOrder(t: Tree, idents: seq<Ident>, b: BindingId)
    requires WellFormed(t) && Placed(t, idents) && b < |t.bindings|
    ensures var spans := VariableReads(t, idents, b);
      && (forall i, j :: 0 <= i < j < |spans| ==> spans[i].start <= spans[j].start)
      && (forall i :: 0 < i < |spans| ==> spans[i - 1] != spans[i])
  {
    var spans := CohortSpans(idents, Edges(t, idents), Cohort(t, b));
    SortIsStable(StartLe, spans);
    DedupLeavesNoNeighbours(StartLe, Sort(StartLe, spans));
    forall i, j | 0 <= i < j < |VariableReads(t, idents, b)|
      ensures VariableReads(t, idents, b)[i].start <= VariableReads(t, idents, b)[j].start
    {
      assert StartLe(VariableReads(t, idents, b)[i], VariableReads(t, idents, b)[j]);
    }
  }

  // --- What a read reaches, told from the tree ------------------------------------------------

  /**
   * The read can mean the binding: it has its name and is not the read itself;
   * and if they share a frame it is assigned before the read, in a loop around
   * it, or the read is deferred.
   */
  predicate CanMean(t: Tree, ident: Ident, b: BindingId)
    requires WellFormed(t) && ident.scope < |t.scopes| && b < |t.bindings|
  {
    var binding := t.bindings[b];
    && Key(binding.name) == Key(ident.name) && binding.defRange != ident.range
    && (Frame(t, binding.scope) != Frame(t, ident.scope)
        || binding.defRange.start < ident.range.start
        || (binding.loopRange.Some? && binding.loopRange.value.Contains(ident.range))
        || ident.deferred)
  }

  /** And no scope nearer to `scope` declares anything else the read can mean. */
  ghost predicate MeansFrom(t: Tree, ident: Ident, scope: ScopeId, b: BindingId)
    requires WellFormed(t) && ident.scope < |t.scopes| && scope < |t.scopes| && b < |t.bindings|
  {
    && CanMean(t, ident, b) && Encloses(t, t.bindings[b].scope, scope)
    && forall c :: 0 <= c < |t.bindings| && CanMean(t, ident, c) && Encloses(t, t.bindings[c].scope, scope) ==>
         t.bindings[c].scope <= t.bindings[b].scope
  }

  /** A read reaches the bindings it can mean in the nearest scope around that has any. */
  lemma ReachedIff(t: Tree, ident: Ident, b: BindingId)
    requires WellFormed(t) && ident.scope < |t.scopes| && b < |t.bindings|
    ensures b in Reached(t, ident) <==> MeansFrom(t, ident, ident.scope, b)
  {
    ReachedFromIff(t, ident, ident.scope, true, b);
  }

  lemma HitsCanMean(t: Tree, ident: Ident, scope: ScopeId, inFrame: bool, b: BindingId)
    requires WellFormed(t) && ident.scope < |t.scopes| && scope < |t.scopes| && b < |t.bindings|
    requires if inFrame then Frame(t, scope) == Frame(t, ident.scope) else scope < Frame(t, ident.scope)
    ensures b in Hits(t, ident, inFrame, NamedIn(t, scope, Key(ident.name)))
       <==> t.bindings[b].scope == scope && CanMean(t, ident, b)
  {
    HitsAre(t, ident, inFrame, NamedIn(t, scope, Key(ident.name)));
    assert t.bindings[b].scope == scope <==> b in t.scopes[scope].bindings;
  }

  lemma {:induction false} ReachedFromIff(t: Tree, ident: Ident, scope: ScopeId, inFrame: bool, b: BindingId)
    requires WellFormed(t) && ident.scope < |t.scopes| && scope < |t.scopes| && b < |t.bindings|
    requires if inFrame then Frame(t, scope) == Frame(t, ident.scope) else scope < Frame(t, ident.scope)
    ensures b in ReachedFrom(t, ident, scope, inFrame) <==> MeansFrom(t, ident, scope, b)
    decreases scope
  {
    var hits := Hits(t, ident, inFrame, NamedIn(t, scope, Key(ident.name)));
    forall c: nat | c < |t.bindings|
      ensures c in hits <==> t.bindings[c].scope == scope && CanMean(t, ident, c)
      ensures Encloses(t, t.bindings[c].scope, scope) ==> t.bindings[c].scope <= scope
    {
      HitsCanMean(t, ident, scope, inFrame, c);
      if Encloses(t, t.bindings[c].scope, scope) {
        EnclosingIsEarlier(t, t.bindings[c].scope, scope);
      }
    }
    assert Encloses(t, scope, scope);
    if hits != [] {
      HitsAre(t, ident, inFrame, NamedIn(t, scope, Key(ident.name)));
      assert hits[0] in hits;
    } else {
      match t.scopes[scope].parent {
        case Some(p) =>
          ReachedFromIff(t, ident, p, inFrame && !EndsFrame(t.scopes[scope]), b);
          assert forall c: nat :: c < |t.bindings| && CanMean(t, ident, c) ==>
            (Encloses(t, t.bindings[c].scope, scope) <==> Encloses(t, t.bindings[c].scope, p));
        case None =>
          assert forall c: nat :: c < |t.bindings| && CanMean(t, ident, c) ==>
            !Encloses(t, t.bindings[c].scope, scope);
      }
    }
  }

  // --- Reaching against resolving ----------------------------------------------------------

  /** Each variable is bound once: no two bindings of a frame share a name. */
  ghost predicate OneBinding(t: Tree)
    requires WellFormed(t)
  {
    forall a, b :: 0 <= a < |t.bindings| && 0 <= b < |t.bindings| && a != b ==> !SameName(t, a, b)
  }

  predicate SameName(t: Tree, a: BindingId, b: BindingId)
    requires WellFormed(t) && a < |t.bindings| && b < |t.bindings|
  {
    Key(t.bindings[a].name) == Key(t.bindings[b].name)
    && Frame(t, t.bindings[a].scope) == Frame(t, t.bindings[b].scope)
  }

  /** The read can see the binding: it is elsewhere, and in its own frame the order allows it. */
  predicate Live(t: Tree, ident: Ident, b: BindingId)
    requires WellFormed(t) && ident.scope < |t.scopes| && b < |t.bindings|
  {
    && t.bindings[b].defRange != ident.range
    && (Frame(t, t.bindings[b].scope) == Frame(t, ident.scope) ==> Ordered(t.bindings[b], ident))
  }

  ghost predicate ReachesOnly(reached: seq<BindingId>, b: BindingId) {
    b in reached && forall c :: c in reached ==> c == b
  }

  /**
   * Where each variable is bound once, a read reaches what it resolves to and
   * nothing else if it can see that binding; otherwise it reaches past it.
   */
  lemma ReachedIsResolvedIffLive(t: Tree, ident: Ident)
    requires WellFormed(t) && OneBinding(t) && ident.scope < |t.scopes|
    ensures match Resolve(t, ident.scope, Key(ident.name))
            case Some(b) =>
              if Live(t, ident, b) then ReachesOnly(Reached(t, ident), b) else b !in Reached(t, ident)
            case None => Reached(t, ident) == []
  {
    ReachedFromFollowsResolve(t, ident, ident.scope, true);
  }

  lemma {:induction false} ReachedFromFollowsResolve(t: Tree, ident: Ident, scope: ScopeId, inFrame: bool)
    requires WellFormed(t) && OneBinding(t) && ident.scope < |t.scopes| && scope < |t.scopes|
    requires if inFrame then Frame(t, scope) == Frame(t, ident.scope) else scope < Frame(t, ident.scope)
    ensures match Resolve(t, scope, Key(ident.name))
            case Some(b) =>
              if Live(t, ident, b) then ReachesOnly(ReachedFrom(t, ident, scope, inFrame), b)
              else b !in ReachedFrom(t, ident, scope, inFrame)
            case None => ReachedFrom(t, ident, scope, inFrame) == []
    decreases scope
  {
    var key := Key(ident.name);
    FirstNamedFinds(t, t.scopes[scope].bindings, key);
    HitsAre(t, ident, inFrame, NamedIn(t, scope, key));
    match FirstNamed(t, t.scopes[scope].bindings, key) {
      case Some(b) =>
        HitsAreLive(t, ident, scope, inFrame, b);
      case None =>
        assert forall b :: b !in NamedIn(t, scope, key);
        assert Hits(t, ident, inFrame, NamedIn(t, scope, key)) == [];
        match t.scopes[scope].parent {
          case Some(p) =>
            ReachedFromFollowsResolve(t, ident, p, inFrame && !EndsFrame(t.scopes[scope]));
          case None =>
        }
    }
  }

  lemma HitsAreLive(t: Tree, ident: Ident, scope: ScopeId, inFrame: bool, b: BindingId)
    requires WellFormed(t) && OneBinding(t) && ident.scope < |t.scopes| && scope < |t.scopes|
    requires if inFrame then Frame(t, scope) == Frame(t, ident.scope) else scope < Frame(t, ident.scope)
    requires b in NamedIn(t, scope, Key(ident.name))
    ensures if Live(t, ident, b) then ReachesOnly(ReachedFrom(t, ident, scope, inFrame), b)
            else b !in ReachedFrom(t, ident, scope, inFrame)
  {
    var named := NamedIn(t, scope, Key(ident.name));
    forall c | c in named ensures c == b {
      assert c in t.scopes[scope].bindings && b in t.scopes[scope].bindings;
      assert c != b ==> !SameName(t, c, b);
    }
    var hits := Hits(t, ident, inFrame, named);
    HitsAre(t, ident, inFrame, named);
    if t.scopes[scope].parent.Some? {
      ReachedAreOutward(t, ident, t.scopes[scope].parent.value, inFrame && !EndsFrame(t.scopes[scope]));
    }
    assert t.bindings[b].scope == scope;
    assert Hit(t, ident, inFrame, b) <==> Live(t, ident, b);
    assert b in hits <==> Live(t, ident, b);
    assert hits != [] <==> b in hits by {
      assert hits != [] ==> hits[0] in hits;
    }
  }
}
