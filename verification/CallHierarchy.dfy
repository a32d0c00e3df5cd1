/**
 * Call hierarchy within one file, `src/lsp/call_hierarchy.rs`: the named
 * functions with their paths, the item each call belongs to, and the calls of
 * an item seen from both ends.
 */
module CallHierarchy {
  import opened Common
  import opened Scopes
  import opened ReadSites

  // Incoming calls are gathered from the reads of a variable, outgoing ones by
  // resolving callees, and what each end lists decides when the two agree.

  /** An assignment of a function literal to a name, with the spans of its parts. */
  datatype Assign = Assign(target: Range, full: Range, literal: Range)

  /**
   * What the file's tree and model provide: scopes and bindings, reads, the
   * assignments of function literals, and the callee spans of its plain calls,
   * each in document order; and whether the index of the workspace has the file,
   * which takes in the members that parse cleanly.
   */
  datatype Source = Source(
    tree: Tree, idents: seq<Ident>, assigns: seq<Assign>, calls: seq<Range>, indexed: bool)

  ghost predicate Valid(src: Source) {
    WellFormed(src.tree) && Placed(src.tree, src.idents)
  }

  /** A named function: its chain of enclosing named functions, and where it is. */
  datatype FnDef = FnDef(path: seq<string>, binding: BindingId, selection: Range, full: Range, literal: Range)

  /** The definitions in binding order, and the definition owning each function scope. */
  datatype FileFunctions = FileFunctions(defs: seq<FnDef>, owners: map<ScopeId, nat>)

  // --- Definitions -----------------------------------------------------------------

  /** The assignment to a target; a later one at the same span stands. */
  function TargetOf(assigns: seq<Assign>, target: Range): (found: Option<Assign>)
    ensures found.Some? ==> found.value.target == target
  {
    if |assigns| == 0 then None
    else if assigns[|assigns| - 1].target == target then Some(assigns[|assigns| - 1])
    else TargetOf(assigns[..|assigns| - 1], target)
  }

  /** The function scope opened by a literal, below `n`. */
  function ScopeBelow(t: Tree, literal: Range, n: nat): (scope: Option<ScopeId>)
    requires n <= |t.scopes|
    ensures scope.Some? ==>
      scope.value < n && t.scopes[scope.value].kind == Function && t.scopes[scope.value].range == literal
  {
    if n == 0 then None
    else if t.scopes[n - 1].kind == Function && t.scopes[n - 1].range == literal then Some(n - 1)
    else ScopeBelow(t, literal, n - 1)
  }

  function ScopeOf(t: Tree, literal: Range): (scope: Option<ScopeId>)
    ensures scope.Some? ==>
      scope.value < |t.scopes| && t.scopes[scope.value].kind == Function && t.scopes[scope.value].range == literal
  {
    ScopeBelow(t, literal, |t.scopes|)
  }

  /** Of several assignments to one span the last stands. */
  lemma {:induction false} LastTargetStands(assigns: seq<Assign>, target: Range, a: Assign)
    ensures TargetOf(assigns, target) == Some(a) <==>
      exists i: nat :: i < |assigns| && assigns[i] == a && a.target == target
        && forall j :: i < j < |assigns| ==> assigns[j].target != target
  {
    if |assigns| > 0 {
      var last := |assigns| - 1;
      if assigns[last].target == target {
        assert assigns[last] == a ==> TargetOf(assigns, target) == Some(a);
      } else {
        LastTargetStands(assigns[..last], target, a);
        assert forall i: nat :: i < last ==> assigns[..last][i] == assigns[i];
      }
    }
  }

  /** A literal opens the last function scope of its span. */
  lemma {:induction false} OpensLastOfSpan(t: Tree, literal: Range, n: nat, s: ScopeId)
    requires n <= |t.scopes|
    ensures ScopeBelow(t, literal, n) == Some(s) <==>
      && s < n && t.scopes[s].kind == ScopeKind.Function && t.scopes[s].range == literal
      && forall later :: s < later < n ==>
           !(t.scopes[later].kind == ScopeKind.Function && t.scopes[later].range == literal)
  {
    if n > 0 {
      OpensLastOfSpan(t, literal, n - 1, s);
    }
  }

  /** The function literal a binding names, if it names one. */
  function Defines(src: Source, b: BindingId): Option<Assign>
    requires b < |src.tree.bindings|
  {
    var binding := src.tree.bindings[b];
    if binding.kind == Local || binding.kind == Implicit then TargetOf(src.assigns, binding.defRange) else None
  }

  /** The definitions among the first `n` bindings, each with only its own name for a path. */
  function DefsBelow(src: Source, n: nat): (defs: seq<FnDef>)
    requires n <= |src.tree.bindings|
    ensures forall k :: 0 <= k < |defs| ==> defs[k].binding < n
  {
    if n == 0 then []
    else
      match Defines(src, n - 1)
      case Some(assign) =>
        var b := src.tree.bindings[n - 1];
        DefsBelow(src, n - 1) + [FnDef([b.name], n - 1, b.defRange, assign.full, assign.literal)]
      case None => DefsBelow(src, n - 1)
  }

  /** The definitions are those of the bindings that name a literal. */
  lemma DefsAreTheNamedLiterals(src: Source, n: nat)
    requires n <= |src.tree.bindings|
    ensures var defs := DefsBelow(src, n);
      && (forall k :: 0 <= k < |defs| ==> IsDef(src, defs[k]))
      && (forall b: nat :: b < n ==>
            (HasDef(defs, b) <==>
               && (src.tree.bindings[b].kind == Local || src.tree.bindings[b].kind == Implicit)
               && exists a :: a in src.assigns && a.target == src.tree.bindings[b].defRange))
  {
    forall k | 0 <= k < |DefsBelow(src, n)| ensures IsDef(src, DefsBelow(src, n)[k]) {
      DefIsItsBinding(src, n, k);
    }
    forall b: nat | b < n
      ensures HasDef(DefsBelow(src, n), b) <==>
        && (src.tree.bindings[b].kind == Local || src.tree.bindings[b].kind == Implicit)
        && exists a :: a in src.assigns && a.target == src.tree.bindings[b].defRange
    {
      TargetIfAssigned(src.assigns, src.tree.bindings[b].defRange);
      if Defines(src, b).Some? {
        NamedLiteralHasDef(src, n, b);
      } else {
        forall k: nat | k < |DefsBelow(src, n)| ensures DefsBelow(src, n)[k].binding != b {
          DefIsItsBinding(src, n, k);
        }
      }
    }
  }

  lemma {:induction false} TargetIfAssigned(assigns: seq<Assign>, target: Range)
    ensures TargetOf(assigns, target).Some? <==> exists a :: a in assigns && a.target == target
    ensures TargetOf(assigns, target).Some? ==> TargetOf(assigns, target).value in assigns
  {
    if |assigns| > 0 && assigns[|assigns| - 1].target != target {
      TargetIfAssigned(assigns[..|assigns| - 1], target);
    }
  }

  lemma {:induction false} NamedLiteralHasDef(src: Source, n: nat, b: BindingId)
    requires b < n <= |src.tree.bindings| && Defines(src, b).Some?
    ensures HasDef(DefsBelow(src, n), b)
  {
    var init, defs := DefsBelow(src, n - 1), DefsBelow(src, n);
    if b < n - 1 {
      NamedLiteralHasDef(src, n - 1, b);
      var k :| 0 <= k < |init| && init[k].binding == b;
      assert defs[k].binding == b;
    } else {
      assert defs[|defs| - 1].binding == b;
    }
  }

  lemma {:induction false} DefIsItsBinding(src: Source, n: nat, k: nat)
    requires n <= |src.tree.bindings| && k < |DefsBelow(src, n)|
    ensures IsDef(src, DefsBelow(src, n)[k])
  {
    if k < |DefsBelow(src, n - 1)| {
      DefIsItsBinding(src, n - 1, k);
    }
  }

  lemma {:induction false} DefsFollowBindings(src: Source, n: nat, j: nat, k: nat)
    requires n <= |src.tree.bindings| && j < k < |DefsBelow(src, n)|
    ensures DefsBelow(src, n)[j].binding < DefsBelow(src, n)[k].binding
  {
    if k < |DefsBelow(src, n - 1)| {
      DefsFollowBindings(src, n - 1, j, k);
    }
  }

  ghost predicate HasDef(defs: seq<FnDef>, b: BindingId) {
    exists k :: 0 <= k < |defs| && defs[k].binding == b
  }

  ghost predicate IsDef(src: Source, def: FnDef) {
    && def.binding < |src.tree.bindings|
    && def.path == [src.tree.bindings[def.binding].name]
    && def.selection == src.tree.bindings[def.binding].defRange
    && Defines(src, def.binding) == Some(Assign(def.selection, def.full, def.literal))
  }

  function Name(def: FnDef): string {
    if |def.path| == 0 then "" else def.path[|def.path| - 1]
  }

  /** The scope each definition's literal opens. */
  function Opens(t: Tree, defs: seq<FnDef>): (opens: seq<Option<ScopeId>>)
    ensures |opens| == |defs|
    ensures forall k :: 0 <= k < |defs| ==> opens[k] == ScopeOf(t, defs[k].literal)
  {
    if |defs| == 0 then [] else Opens(t, defs[..|defs| - 1]) + [ScopeOf(t, defs[|defs| - 1].literal)]
  }

  /** The first to open a scope owns it. */
  function Owners(opens: seq<Option<ScopeId>>): (owners: map<ScopeId, nat>)
    ensures forall s :: s in owners ==> owners[s] < |opens|
  {
    if |opens| == 0 then map[]
    else
      var k, owners := |opens| - 1, Owners(opens[..|opens| - 1]);
      if opens[k].Some? && opens[k].value !in owners then owners[opens[k].value := k] else owners
  }

  lemma {:induction false} OwnerIsFirstToOpen(opens: seq<Option<ScopeId>>, s: ScopeId)
    ensures s in Owners(opens) <==> Some(s) in opens
    ensures s in Owners(opens) ==> opens[Owners(opens)[s]] == Some(s) && Some(s) !in opens[..Owners(opens)[s]]
  {
    if |opens| > 0 {
      var init := opens[..|opens| - 1];
      OwnerIsFirstToOpen(init, s);
      assert opens == init + [opens[|opens| - 1]];
      assert s in Owners(init) ==> opens[..Owners(init)[s]] == init[..Owners(init)[s]];
    }
  }

  function OwnersOf(t: Tree, defs: seq<FnDef>): (owners: map<ScopeId, nat>)
    ensures forall s :: s in owners ==> owners[s] < |defs|
  {
    Owners(Opens(t, defs))
  }

  /** The names of the owned functions around a scope, outermost first. */
  function Chain(t: Tree, defs: seq<FnDef>, owners: map<ScopeId, nat>, scope: Option<ScopeId>): seq<string>
    requires WellFormed(t) && (scope.Some? ==> scope.value < |t.scopes|)
    requires forall s :: s in owners ==> owners[s] < |defs|
    decreases if scope.Some? then scope.value + 1 else 0
  {
    match scope
    case None => []
    case Some(s) =>
      Chain(t, defs, owners, t.scopes[s].parent)
      + if t.scopes[s].kind == Function && s in owners then [Name(defs[owners[s]])] else []
  }

  /** A definition with the chain of functions around its binding's scope put before its name. */
  function Addressed(src: Source, defs: seq<FnDef>, owners: map<ScopeId, nat>, k: nat): FnDef
    requires WellFormed(src.tree) && k < |defs|
    requires forall j :: 0 <= j < |defs| ==> defs[j].binding < |src.tree.bindings|
    requires forall s :: s in owners ==> owners[s] < |defs|
  {
    var scope := src.tree.bindings[defs[k].binding].scope;
    defs[k].(path := Chain(src.tree, defs, owners, Some(scope)) + [Name(defs[k])])
  }

  function Functions(src: Source): (functions: FileFunctions)
    requires Valid(src)
  {
    var defs := DefsBelow(src, |src.tree.bindings|);
    var owners := OwnersOf(src.tree, defs);
    FileFunctions(seq(|defs|, k requires 0 <= k < |defs| => Addressed(src, defs, owners, k)), owners)
  }

  method TargetIndex(assigns: seq<Assign>) returns (byTarget: map<Range, Assign>)
    ensures forall r: Range :: Lookup(byTarget, r) == TargetOf(assigns, r)
  {
    byTarget := map[];
    for i := 0 to |assigns|
      invariant forall r: Range :: Lookup(byTarget, r) == TargetOf(assigns[..i], r)
    {
      assert assigns[..i + 1][..i] == assigns[..i];
      byTarget := byTarget[assigns[i].target := assigns[i]];
    }
    assert assigns[..|assigns|] == assigns;
  }

  method ScopeIndex(t: Tree) returns (byRange: map<Range, ScopeId>)
    ensures forall r: Range :: Lookup(byRange, r) == ScopeOf(t, r)
  {
    byRange := map[];
    for i := 0 to |t.scopes|
      invariant forall r: Range :: Lookup(byRange, r) == ScopeBelow(t, r, i)
    {
      if t.scopes[i].kind == Function {
        byRange := byRange[t.scopes[i].range := i];
      }
    }
  }

  function Lookup<K, V>(m: map<K, V>, key: K): Option<V> {
    if key in m then Some(m[key]) else None
  }

  /** The two passes: the definitions with the scopes they own, then their paths. */
  method FunctionDefs(src: Source) returns (functions: FileFunctions)
    requires Valid(src)
    ensures functions == Functions(src)
  {
    var defs, owners := PassA(src);
    functions := PassB(src, defs, owners);
  }

  method PassA(src: Source) returns (defs: seq<FnDef>, owners: map<ScopeId, nat>)
    ensures defs == DefsBelow(src, |src.tree.bindings|) && owners == OwnersOf(src.tree, defs)
  {
    var byTarget := TargetIndex(src.assigns);
    var byRange := ScopeIndex(src.tree);
    defs, owners := [], map[];
    for i := 0 to |src.tree.bindings|
      invariant defs == DefsBelow(src, i) && owners == OwnersOf(src.tree, defs)
    {
      var b := src.tree.bindings[i];
      if (b.kind == Local || b.kind == Implicit) && b.defRange in byTarget {
        var assign := byTarget[b.defRange];
        assert Lookup(byTarget, b.defRange) == Some(assign);
        assert Lookup(byRange, assign.literal) == ScopeOf(src.tree, assign.literal);
        var longer := defs + [FnDef([b.name], i, b.defRange, assign.full, assign.literal)];
        OwnersGrow(src.tree, defs, longer[|defs|]);
        if assign.literal in byRange && byRange[assign.literal] !in owners {
          owners := owners[byRange[assign.literal] := |defs|];
        }
        defs := longer;
      } else {
        assert Lookup(byTarget, b.defRange) == TargetOf(src.assigns, b.defRange);
      }
    }
  }

  lemma OwnersGrow(t: Tree, defs: seq<FnDef>, def: FnDef)
    ensures OwnersOf(t, defs + [def])
         == match ScopeOf(t, def.literal)
            case Some(s) =>
              if s in OwnersOf(t, defs) then OwnersOf(t, defs) else OwnersOf(t, defs)[s := |defs|]
            case None => OwnersOf(t, defs)
  {
    assert (defs + [def])[..|defs|] == defs;
    var opens := Opens(t, defs + [def]);
    assert opens[..|defs|] == Opens(t, defs);
  }

  method PassB(src: Source, defs: seq<FnDef>, owners: map<ScopeId, nat>) returns (functions: FileFunctions)
    requires WellFormed(src.tree)
    requires forall j :: 0 <= j < |defs| ==> defs[j].binding < |src.tree.bindings|
    requires forall s :: s in owners ==> owners[s] < |defs|
    ensures functions.owners == owners && |functions.defs| == |defs|
    ensures forall j :: 0 <= j < |defs| ==> functions.defs[j] == Addressed(src, defs, owners, j)
  {
    var named := defs;
    for k := 0 to |defs|
      invariant |named| == |defs|
      invariant forall j :: 0 <= j < k ==> named[j] == Addressed(src, defs, owners, j)
      invariant forall j :: k <= j < |defs| ==> named[j] == defs[j]
      invariant forall j :: 0 <= j < |defs| ==> Name(named[j]) == Name(defs[j])
    {
      var def := FillPath(src, named, defs, owners, k);
      named := named[k := def];
    }
    functions := FileFunctions(named, owners);
  }

  /** One turn of the second pass; filling in earlier paths has changed nobody's name. */
  method FillPath(src: Source, named: seq<FnDef>, ghost defs: seq<FnDef>, owners: map<ScopeId, nat>, k: nat)
    returns (def: FnDef)
    requires WellFormed(src.tree)
    requires forall j :: 0 <= j < |defs| ==> defs[j].binding < |src.tree.bindings|
    requires forall s :: s in owners ==> owners[s] < |defs|
    requires |named| == |defs| && k < |defs| && named[k] == defs[k]
    requires forall j :: 0 <= j < |defs| ==> Name(named[j]) == Name(defs[j])
    ensures def == Addressed(src, defs, owners, k) && Name(def) == Name(defs[k])
  {
    var scope := src.tree.bindings[named[k].binding].scope;
    var chain := EnclosingNames(src.tree, named, owners, scope);
    SameNamesSameChain(src.tree, named, defs, owners, Some(scope));
    def := named[k].(path := chain + [Name(named[k])]);
  }

  lemma {:induction false} SameNamesSameChain(
      t: Tree, a: seq<FnDef>, b: seq<FnDef>, owners: map<ScopeId, nat>, scope: Option<ScopeId>)
    requires WellFormed(t) && (scope.Some? ==> scope.value < |t.scopes|)
    requires |a| == |b| && forall s :: s in owners ==> owners[s] < |a|
    requires forall j :: 0 <= j < |a| ==> Name(a[j]) == Name(b[j])
    ensures Chain(t, a, owners, scope) == Chain(t, b, owners, scope)
    decreases if scope.Some? then scope.value + 1 else 0
  {
    if scope.Some? {
      SameNamesSameChain(t, a, b, owners, t.scopes[scope.value].parent);
    }
  }

  method EnclosingNames(t: Tree, defs: seq<FnDef>, owners: map<ScopeId, nat>, scope: ScopeId)
    returns (chain: seq<string>)
    requires WellFormed(t) && scope < |t.scopes|
    requires forall s :: s in owners ==> owners[s] < |defs|
    ensures chain == Chain(t, defs, owners, Some(scope))
  {
    chain := [];
    var current: Option<ScopeId> := Some(scope);
    while current.Some?
      invariant current.Some? ==> current.value < |t.scopes|
      invariant Chain(t, defs, owners, Some(scope)) == Chain(t, defs, owners, current) + chain
      decreases if current.Some? then current.value + 1 else 0
    {
      var s := current.value;
      if t.scopes[s].kind == Function && s in owners {
        chain := [Name(defs[owners[s]])] + chain;
      }
      current := t.scopes[s].parent;
    }
  }

  // --- Whose call it is ---------------------------------------------------------------

  /** The owner of the innermost owned scope, going outward; anonymous functions are stepped past. */
  function OwnerFrom(t: Tree, owners: map<ScopeId, nat>, scope: Option<ScopeId>): (owner: Option<nat>)
    requires WellFormed(t) && (scope.Some? ==> scope.value < |t.scopes|)
    ensures owner.Some? ==> exists s :: s in owners && owners[s] == owner.value
    decreases if scope.Some? then scope.value + 1 else 0
  {
    match scope
    case None => None
    case Some(s) => if s in owners then Some(owners[s]) else OwnerFrom(t, owners, t.scopes[s].parent)
  }

  function Enclosing(t: Tree, owners: map<ScopeId, nat>, call: Range): Option<nat>
    requires WellFormed(t)
  {
    OwnerFrom(t, owners, Some(Innermost(t, call.start)))
  }

  method EnclosingFunction(model: SemanticModel, owners: map<ScopeId, nat>, call: Range) returns (owner: Option<nat>)
    requires model.Valid()
    ensures owner == Enclosing(model.View(), owners, call)
  {
    ghost var t := model.View();
    var innermost := model.InnermostScopeAt(call.start);
    var current: Option<ScopeId> := Some(innermost);
    while current.Some?
      invariant current.Some? ==> current.value < |model.scopes|
      invariant Enclosing(t, owners, call) == OwnerFrom(t, owners, current)
      decreases if current.Some? then current.value + 1 else 0
    {
      if current.value in owners {
        return Some(owners[current.value]);
      }
      current := model.scopes[current.value].parent;
    }
    return None;
  }

  /** The owning scope is around the innermost one, and is the nearest such. */
  lemma {:induction false} OwnerIsNearest(t: Tree, owners: map<ScopeId, nat>, scope: ScopeId, k: nat)
    requires WellFormed(t) && scope < |t.scopes| && OwnerFrom(t, owners, Some(scope)) == Some(k)
    ensures exists s :: s in owners && owners[s] == k && NearestOwned(t, owners, s, scope)
    decreases scope
  {
    if scope in owners {
      assert NearestOwned(t, owners, scope, scope) by {
        forall o: nat | Encloses(t, o, scope) ensures o <= scope {
          EnclosingIsEarlier(t, o, scope);
        }
      }
    } else {
      var p := t.scopes[scope].parent.value;
      OwnerIsNearest(t, owners, p, k);
      var s :| s in owners && owners[s] == k && NearestOwned(t, owners, s, p);
      assert NearestOwned(t, owners, s, scope);
    }
  }

  /** `s` is around `inner`, and no owned scope lies between them. */
  ghost predicate NearestOwned(t: Tree, owners: map<ScopeId, nat>, s: ScopeId, inner: ScopeId)
    requires WellFormed(t) && inner < |t.scopes|
  {
    Encloses(t, s, inner) && forall o: nat :: Encloses(t, o, inner) && s < o ==> o !in owners
  }

  /** There is no owner exactly when no scope around is owned, whatever unowned ones there are. */
  lemma {:induction false} NoOwnerIff(t: Tree, owners: map<ScopeId, nat>, scope: ScopeId)
    requires WellFormed(t) && scope < |t.scopes|
    ensures OwnerFrom(t, owners, Some(scope)) == None
       <==> forall o: nat :: Encloses(t, o, scope) ==> o !in owners
    decreases scope
  {
    assert Encloses(t, scope, scope);
    match t.scopes[scope].parent {
      case Some(p) =>
        NoOwnerIff(t, owners, p);
        assert forall o: nat :: Encloses(t, o, scope) <==> o == scope || Encloses(t, o, p);
      case None =>
        assert forall o: nat :: Encloses(t, o, scope) <==> o == scope;
    }
  }

  // --- Grouping ------------------------------------------------------------------------

  datatype Group<K> = Group(key: K, ranges: seq<Range>)

  function Put<K(==)>(groups: seq<Group<K>>, key: K, range: Range): seq<Group<K>> {
    if |groups| == 0 then [Group(key, [range])]
    else if groups[0].key == key then [Group(key, groups[0].ranges + [range])] + groups[1..]
    else [groups[0]] + Put(groups[1..], key, range)
  }

  function Grouped<K(==)>(edges: seq<(K, Range)>): seq<Group<K>> {
    if |edges| == 0 then []
    else Put(Grouped(edges[..|edges| - 1]), edges[|edges| - 1].0, edges[|edges| - 1].1)
  }

  /** The ranges of the group with a key. */
  function Under<K(==)>(groups: seq<Group<K>>, key: K): seq<Range> {
    if |groups| == 0 then [] else if groups[0].key == key then groups[0].ranges else Under(groups[1..], key)
  }

  /** The ranges paired with a key, in order. */
  function Selected<K(==)>(edges: seq<(K, Range)>, key: K): seq<Range> {
    if |edges| == 0 then []
    else
      Selected(edges[..|edges| - 1], key)
      + (if edges[|edges| - 1].0 == key then [edges[|edges| - 1].1] else [])
  }

  lemma {:induction false} SelectedAre<K>(edges: seq<(K, Range)>, key: K, range: Range)
    ensures range in Selected(edges, key) <==> (key, range) in edges
  {
    if |edges| > 0 {
      var last := edges[|edges| - 1];
      assert edges == edges[..|edges| - 1] + [last];
      SelectedAre(edges[..|edges| - 1], key, range);
      assert last == (key, range) <==> last.0 == key && last.1 == range;
    }
  }

  /** The edge a range adds, if it has a key. */
  function Edge<K>(key: Option<K>, range: Range): seq<(K, Range)> {
    match key case Some(k) => [(k, range)] case None => []
  }

  lemma EdgeIs<K>(key: Option<K>, last: Range, k: K, range: Range)
    ensures (k, range) in Edge(key, last) <==> key == Some(k) && range == last
  {
  }

  lemma GroupedGrows<K>(edges: seq<(K, Range)>, key: Option<K>, range: Range)
    ensures Grouped(edges + Edge(key, range))
         == match key case Some(k) => Put(Grouped(edges), k, range) case None => Grouped(edges)
  {
    match key {
      case Some(k) =>
        assert (edges + [(k, range)])[..|edges|] == edges;
      case None =>
        assert edges + [] == edges;
    }
  }

  lemma {:induction false} PutUnder<K>(groups: seq<Group<K>>, key: K, range: Range, other: K)
    ensures Under(Put(groups, key, range), other) == Under(groups, other) + (if other == key then [range] else [])
  {
    if |groups| > 0 && groups[0].key != key {
      PutUnder(groups[1..], key, range, other);
    }
  }

  /** Each group holds exactly its key's ranges, in the order they came. */
  lemma {:induction false} GroupsCollect<K>(edges: seq<(K, Range)>, key: K)
    ensures Under(Grouped(edges), key) == Selected(edges, key)
  {
    if |edges| > 0 {
      GroupsCollect(edges[..|edges| - 1], key);
      PutUnder(Grouped(edges[..|edges| - 1]), edges[|edges| - 1].0, edges[|edges| - 1].1, key);
    }
  }

  lemma {:induction false} PutAtFirst<K>(groups: seq<Group<K>>, key: K, range: Range, i: nat)
    requires i <= |groups| && forall j :: 0 <= j < i ==> groups[j].key != key
    requires i < |groups| ==> groups[i].key == key
    ensures Put(groups, key, range)
         == if i < |groups| then groups[i := Group(key, groups[i].ranges + [range])]
            else groups + [Group(key, [range])]
  {
    if i > 0 {
      PutAtFirst(groups[1..], key, range, i - 1);
    }
  }

  /** Find the group and push, or append a new one. */
  method PutInto<K(==)>(groups: seq<Group<K>>, key: K, range: Range) returns (grown: seq<Group<K>>)
    ensures grown == Put(groups, key, range)
  {
    var i := 0;
    while i < |groups| && groups[i].key != key
      invariant 0 <= i <= |groups|
      invariant forall j :: 0 <= j < i ==> groups[j].key != key
    {
      i := i + 1;
    }
    PutAtFirst(groups, key, range, i);
    if i < |groups| {
      grown := groups[i := Group(key, groups[i].ranges + [range])];
    } else {
      grown := groups + [Group(key, [range])];
    }
  }

  // --- Items -----------------------------------------------------------------------------

  /** A function, by the chain of names down to it, or the file's top level. */
  datatype ItemId = FunctionItem(path: seq<string>) | ScriptScope

  /** The first definition with a path. */
  function ByPath(defs: seq<FnDef>, path: seq<string>): (k: Option<nat>)
    ensures match k
            case Some(i) => i < |defs| && defs[i].path == path && forall j :: 0 <= j < i ==> defs[j].path != path
            case None => forall j :: 0 <= j < |defs| ==> defs[j].path != path
  {
    if |defs| == 0 then None
    else if defs[0].path == path then Some(0)
    else match ByPath(defs[1..], path)
      case Some(i) => Some(i + 1)
      case None => assert forall j :: 0 < j < |defs| ==> defs[j] == defs[1..][j - 1]; None
  }

  function ByBinding(defs: seq<FnDef>, b: BindingId): (k: Option<nat>)
    ensures match k
            case Some(i) => i < |defs| && defs[i].binding == b
            case None => forall j :: 0 <= j < |defs| ==> defs[j].binding != b
  {
    if |defs| == 0 then None
    else if defs[0].binding == b then Some(0)
    else match ByBinding(defs[1..], b)
      case Some(i) => Some(i + 1)
      case None => assert forall j :: 0 < j < |defs| ==> defs[j] == defs[1..][j - 1]; None
  }

  function ItemOf(defs: seq<FnDef>, owner: Option<nat>): ItemId
    requires owner.Some? ==> owner.value < |defs|
  {
    match owner case Some(k) => FunctionItem(defs[k].path) case None => ScriptScope
  }

  /** The functions of a file, as far as attribution needs them to make sense. */
  ghost predicate Owned(f: FileFunctions) {
    forall s :: s in f.owners ==> f.owners[s] < |f.defs|
  }

  /** The item a call belongs to. */
  function Caller(t: Tree, f: FileFunctions, call: Range): ItemId
    requires WellFormed(t) && Owned(f)
  {
    ItemOf(f.defs, Enclosing(t, f.owners, call))
  }

  // --- Incoming calls -----------------------------------------------------------------------

  predicate AtFileScope(t: Tree, b: BindingId)
    requires WellFormed(t) && b < |t.bindings|
  {
    t.scopes[t.bindings[b].scope].kind == File
  }

  predicate IsFileScopeName(t: Tree, b: BindingId, name: string)
    requires WellFormed(t) && b < |t.bindings|
  {
    (t.bindings[b].kind == Local || t.bindings[b].kind == Implicit) && t.bindings[b].name == name && AtFileScope(t, b)
  }

  /** The first top-level binding of a name from `n` on. */
  function FileScopeBinding(t: Tree, name: string, n: nat): (b: Option<BindingId>)
    requires WellFormed(t) && n <= |t.bindings|
    ensures match b
            case Some(b) => b < |t.bindings| && IsFileScopeName(t, b, name)
            case None => forall c :: n <= c < |t.bindings| ==> !IsFileScopeName(t, c, name)
    decreases |t.bindings| - n
  {
    if n == |t.bindings| then None
    else if IsFileScopeName(t, n, name) then Some(n)
    else FileScopeBinding(t, name, n + 1)
  }

  /** The variable whose reads are searched for calls of the item at `path`. */
  function VariableOf(t: Tree, f: FileFunctions, path: seq<string>): (b: Option<BindingId>)
    requires WellFormed(t) && Bound(t, f)
    ensures b.Some? ==> b.value < |t.bindings|
  {
    if |path| == 1 then FileScopeBinding(t, path[0], 0)
    else match ByPath(f.defs, path) case Some(k) => Some(f.defs[k].binding) case None => None
  }

  ghost predicate Bound(t: Tree, f: FileFunctions) {
    forall k :: 0 <= k < |f.defs| ==> f.defs[k].binding < |t.bindings|
  }

  /** The item calling at a span, if the span is a callee at all. */
  function CallerAt(src: Source, f: FileFunctions, span: Range): Option<ItemId>
    requires Valid(src) && Owned(f)
  {
    if span in src.calls then Some(Caller(src.tree, f, span)) else None
  }

  /** The spans that are callees, each under the item its call belongs to. */
  function IncomingEdges(src: Source, f: FileFunctions, spans: seq<Range>): seq<(ItemId, Range)>
    requires Valid(src) && Owned(f)
  {
    if |spans| == 0 then []
    else
      var last := spans[|spans| - 1];
      IncomingEdges(src, f, spans[..|spans| - 1]) + Edge(CallerAt(src, f, last), last)
  }

  lemma {:induction false} IncomingEdgesAre(src: Source, f: FileFunctions, spans: seq<Range>, id: ItemId, range: Range)
    requires Valid(src) && Owned(f)
    ensures (id, range) in IncomingEdges(src, f, spans)
       <==> range in spans && range in src.calls && id == Caller(src.tree, f, range)
  {
    if |spans| > 0 {
      var last := spans[|spans| - 1];
      assert spans == spans[..|spans| - 1] + [last];
      IncomingEdgesAre(src, f, spans[..|spans| - 1], id, range);
      IncomingEdgesGrow(src, f, spans[..|spans| - 1], last);
    }
  }

  /** A bare name is looked up in the index first, and the file is searched only if it is there. */
  predicate IsSearched(src: Source, path: seq<string>) {
    |path| != 1 || src.indexed
  }

  function Incoming(src: Source, f: FileFunctions, id: ItemId): seq<Group<ItemId>>
    requires Valid(src) && Owned(f) && Bound(src.tree, f)
  {
    match id
    case ScriptScope => []
    case FunctionItem(path) =>
      if !IsSearched(src, path) then []
      else
        match VariableOf(src.tree, f, path)
        case Some(b) => Grouped(IncomingEdges(src, f, VariableReads(src.tree, src.idents, b)))
        case None => []
  }

  /** The dispatch on the item: the script has no callers, a bare name goes through the index. */
  method IncomingCalls(model: SemanticModel, src: Source, f: FileFunctions, id: ItemId)
    returns (groups: seq<Group<ItemId>>)
    requires model.Valid() && src.tree == model.View() && Valid(src) && Owned(f) && Bound(src.tree, f)
    ensures groups == Incoming(src, f, id)
  {
    match id {
      case ScriptScope => return [];
      case FunctionItem(path) =>
        if |path| == 1 && !src.indexed {
          return [];
        }
        match VariableOf(src.tree, f, path) {
          case Some(b) => groups := CollectIncoming(model, src, f, VariableReads(src.tree, src.idents, b));
          case None => return [];
        }
    }
  }

  method CollectIncoming(model: SemanticModel, src: Source, f: FileFunctions, spans: seq<Range>)
    returns (groups: seq<Group<ItemId>>)
    requires model.Valid() && src.tree == model.View() && Valid(src) && Owned(f)
    ensures groups == Grouped(IncomingEdges(src, f, spans))
  {
    groups := [];
    for i := 0 to |spans|
      invariant groups == Grouped(IncomingEdges(src, f, spans[..i]))
    {
      IncomingEdgesGrow(src, f, spans[..i], spans[i]);
      GroupedGrows(IncomingEdges(src, f, spans[..i]), CallerAt(src, f, spans[i]), spans[i]);
      Snoc(spans, i);
      if spans[i] in src.calls {
        var owner := EnclosingFunction(model, f.owners, spans[i]);
        groups := PutInto(groups, ItemOf(f.defs, owner), spans[i]);
      }
    }
    Whole(spans);
  }

  // --- Outgoing calls ---------------------------------------------------------------------------

  /** The first read at a span. */
  function IdentAt(idents: seq<Ident>, range: Range): (i: Option<nat>)
    ensures match i
            case Some(i) => i < |idents| && idents[i].range == range
            case None => forall j :: 0 <= j < |idents| ==> idents[j].range != range
  {
    if |idents| == 0 then None
    else if idents[0].range == range then Some(0)
    else match IdentAt(idents[1..], range)
      case Some(i) => Some(i + 1)
      case None => assert forall j :: 0 < j < |idents| ==> idents[j] == idents[1..][j - 1]; None
  }

  /** The binding in this file that a callee resolves to. */
  function CalleeBinding(src: Source, call: Range): (b: Option<BindingId>)
    requires Valid(src)
    ensures b.Some? ==> b.value < |src.tree.bindings|
  {
    match IdentAt(src.idents, call)
    case Some(i) => Resolve(src.tree, src.idents[i].scope, Key(src.idents[i].name))
    case None => None
  }

  /** The path of the function in this file that a callee names. */
  function Callee(src: Source, f: FileFunctions, call: Range): Option<seq<string>>
    requires Valid(src)
  {
    match CalleeBinding(src, call)
    case Some(b) => (match ByBinding(f.defs, b) case Some(k) => Some(f.defs[k].path) case None => None)
    case None => None
  }

  /** Whether a call is inside what is walked for `owner`, and belongs to it. */
  predicate IsOwnCall(src: Source, f: FileFunctions, owner: Option<nat>, call: Range)
    requires Valid(src) && (owner.Some? ==> owner.value < |f.defs|)
  {
    && (owner.Some? ==> f.defs[owner.value].literal.Contains(call))
    && Enclosing(src.tree, f.owners, call) == owner
  }

  /** The calls among `calls` that an owner makes, in order. */
  function OwnCalls(src: Source, f: FileFunctions, owner: Option<nat>, calls: seq<Range>): seq<Range>
    requires Valid(src) && (owner.Some? ==> owner.value < |f.defs|)
  {
    if |calls| == 0 then []
    else
      var last := calls[|calls| - 1];
      OwnCalls(src, f, owner, calls[..|calls| - 1])
      + (if IsOwnCall(src, f, owner, last) then [last] else [])
  }

  lemma {:induction false} OwnCallsAre(
      src: Source, f: FileFunctions, owner: Option<nat>, calls: seq<Range>, range: Range)
    requires Valid(src) && (owner.Some? ==> owner.value < |f.defs|)
    ensures range in OwnCalls(src, f, owner, calls) <==> range in calls && IsOwnCall(src, f, owner, range)
  {
    if |calls| > 0 {
      var last := calls[|calls| - 1];
      assert calls == calls[..|calls| - 1] + [last];
      OwnCallsAre(src, f, owner, calls[..|calls| - 1], range);
      OwnCallsGrow(src, f, owner, calls[..|calls| - 1], last);
    }
  }

  /** The calls that resolve to a function of this file, each under that function's path. */
  function OutgoingEdges(src: Source, f: FileFunctions, calls: seq<Range>): seq<(seq<string>, Range)>
    requires Valid(src)
  {
    if |calls| == 0 then []
    else
      var last := calls[|calls| - 1];
      OutgoingEdges(src, f, calls[..|calls| - 1]) + Edge(Callee(src, f, last), last)
  }

  lemma {:induction false} OutgoingEdgesAre(
      src: Source, f: FileFunctions, calls: seq<Range>, path: seq<string>, range: Range)
    requires Valid(src)
    ensures (path, range) in OutgoingEdges(src, f, calls) <==> range in calls && Callee(src, f, range) == Some(path)
  {
    if |calls| > 0 {
      var last := calls[|calls| - 1];
      assert calls == calls[..|calls| - 1] + [last];
      OutgoingEdgesAre(src, f, calls[..|calls| - 1], path, range);
      EdgeIs(Callee(src, f, last), last, path, range);
    }
  }

  /** Whose calls an item lists: an owner, or nothing where no definition has the path. */
  function OwnerOfItem(f: FileFunctions, id: ItemId): (owner: Option<Option<nat>>)
    ensures owner.Some? && owner.value.Some? ==> owner.value.value < |f.defs|
  {
    match id
    case ScriptScope => Some(None)
    case FunctionItem(path) => match ByPath(f.defs, path) case Some(k) => Some(Some(k)) case None => None
  }

  /** The calls an item makes, resolved or not. */
  function CallsOf(src: Source, f: FileFunctions, id: ItemId): seq<Range>
    requires Valid(src)
  {
    match OwnerOfItem(f, id) case Some(owner) => OwnCalls(src, f, owner, src.calls) case None => []
  }

  function Outgoing(src: Source, f: FileFunctions, id: ItemId): seq<Group<seq<string>>>
    requires Valid(src)
  {
    Grouped(OutgoingEdges(src, f, CallsOf(src, f, id)))
  }

  method OutgoingCalls(model: SemanticModel, src: Source, f: FileFunctions, id: ItemId)
    returns (groups: Option<seq<Group<seq<string>>>>)
    requires model.Valid() && src.tree == model.View() && Valid(src)
    ensures groups == if OwnerOfItem(f, id).Some? then Some(Outgoing(src, f, id)) else None
  {
    var owner: Option<nat> := None;
    if id.FunctionItem? {
      owner := ByPath(f.defs, id.path);
      if owner.None? {
        return None;
      }
    }
    var gathered := GatherOutgoing(model, src, f, owner);
    return Some(gathered);
  }

  method GatherOutgoing(model: SemanticModel, src: Source, f: FileFunctions, owner: Option<nat>)
    returns (groups: seq<Group<seq<string>>>)
    requires model.Valid() && src.tree == model.View() && Valid(src) && (owner.Some? ==> owner.value < |f.defs|)
    ensures groups == Grouped(OutgoingEdges(src, f, OwnCalls(src, f, owner, src.calls)))
  {
    groups := [];
    for i := 0 to |src.calls|
      invariant groups == Grouped(OutgoingEdges(src, f, OwnCalls(src, f, owner, src.calls[..i])))
    {
      groups := AddCall(model, src, f, owner, OwnCalls(src, f, owner, src.calls[..i]), groups, src.calls[i]);
      OwnCallsGrow(src, f, owner, src.calls[..i], src.calls[i]);
      Snoc(src.calls, i);
    }
    Whole(src.calls);
  }

  /** One turn of the loop: only the owner's own calls are kept, and of those the ones that resolve here. */
  method AddCall(
      model: SemanticModel, src: Source, f: FileFunctions, owner: Option<nat>,
      ghost own: seq<Range>, groups: seq<Group<seq<string>>>, call: Range)
    returns (grown: seq<Group<seq<string>>>)
    requires model.Valid() && src.tree == model.View() && Valid(src) && (owner.Some? ==> owner.value < |f.defs|)
    requires groups == Grouped(OutgoingEdges(src, f, own))
    ensures grown
         == Grouped(OutgoingEdges(src, f, own + (if IsOwnCall(src, f, owner, call) then [call] else [])))
  {
    grown := groups;
    assert own + [] == own;
    if owner.None? || f.defs[owner.value].literal.Contains(call) {
      var enclosing := EnclosingFunction(model, f.owners, call);
      if enclosing == owner {
        var target := ResolveCallee(model, src, f, call);
        OneMoreOwnCall(src, f, own, call);
        if target.Some? {
          grown := PutInto(groups, target.value, call);
        }
      }
    }
  }

  lemma OneMoreOwnCall(src: Source, f: FileFunctions, own: seq<Range>, call: Range)
    requires Valid(src)
    ensures Grouped(OutgoingEdges(src, f, own + [call]))
         == match Callee(src, f, call)
            case Some(path) => Put(Grouped(OutgoingEdges(src, f, own)), path, call)
            case None => Grouped(OutgoingEdges(src, f, own))
  {
    OutgoingEdgesGrow(src, f, own, call);
    GroupedGrows(OutgoingEdges(src, f, own), Callee(src, f, call), call);
  }

  lemma OutgoingEdgesGrow(src: Source, f: FileFunctions, own: seq<Range>, call: Range)
    requires Valid(src)
    ensures OutgoingEdges(src, f, own + [call])
         == OutgoingEdges(src, f, own) + Edge(Callee(src, f, call), call)
  {
    assert (own + [call])[..|own|] == own;
  }

  lemma OwnCallsGrow(src: Source, f: FileFunctions, owner: Option<nat>, calls: seq<Range>, call: Range)
    requires Valid(src) && (owner.Some? ==> owner.value < |f.defs|)
    ensures OwnCalls(src, f, owner, calls + [call])
         == OwnCalls(src, f, owner, calls) + (if IsOwnCall(src, f, owner, call) then [call] else [])
  {
    assert (calls + [call])[..|calls|] == calls;
  }

  lemma IncomingEdgesGrow(src: Source, f: FileFunctions, spans: seq<Range>, span: Range)
    requires Valid(src) && Owned(f)
    ensures IncomingEdges(src, f, spans + [span])
         == IncomingEdges(src, f, spans) + Edge(CallerAt(src, f, span), span)
  {
    assert (spans + [span])[..|spans|] == spans;
  }

  method ResolveCallee(model: SemanticModel, src: Source, f: FileFunctions, call: Range)
    returns (target: Option<seq<string>>)
    requires model.Valid() && src.tree == model.View() && Valid(src)
    ensures target == Callee(src, f, call)
  {
    match IdentAt(src.idents, call) {
      case Some(i) =>
        var b := model.ResolveLocal(src.idents[i]);
        if b.Some? {
          var k := ByBinding(f.defs, b.value);
          return if k.Some? then Some(f.defs[k.value].path) else None;
        }
        return None;
      case None =>
        return None;
    }
  }

  // --- Every call has one caller --------------------------------------------------------------------

  /** Each owned scope is opened by its owner's literal. */
  lemma OwnersOpen(src: Source)
    requires Valid(src)
    ensures var f := Functions(src);
      Owned(f) && forall s :: s in f.owners ==> ScopeOf(src.tree, f.defs[f.owners[s]].literal) == Some(s)
  {
    var defs := DefsBelow(src, |src.tree.bindings|);
    var owners := OwnersOf(src.tree, defs);
    forall s | s in owners ensures ScopeOf(src.tree, defs[owners[s]].literal) == Some(s) {
      OwnerIsFirstToOpen(Opens(src.tree, defs), s);
    }
  }

  lemma DefsAreNamed(src: Source, k: nat)
    requires Valid(src) && k < |Functions(src).defs|
    ensures IsNamedDef(src, Functions(src).defs[k])
  {
    DefIsItsBinding(src, |src.tree.bindings|, k);
  }

  /** A function bound at top level is addressed by its bare name. */
  lemma TopLevelPath(src: Source, k: nat)
    requires Valid(src) && k < |Functions(src).defs|
    requires Functions(src).defs[k].binding < |src.tree.bindings|
    requires AtFileScope(src.tree, Functions(src).defs[k].binding)
    requires src.tree.bindings[Functions(src).defs[k].binding].scope == 0
    ensures Functions(src).defs[k].path == [src.tree.bindings[Functions(src).defs[k].binding].name]
  {
    var defs := DefsBelow(src, |src.tree.bindings|);
    var owners := OwnersOf(src.tree, defs);
    DefsAreNamed(src, k);
    assert src.tree.scopes[0].parent == None;
    assert Chain(src.tree, defs, owners, None) == [];
    assert Chain(src.tree, defs, owners, Some(0)) == [];
  }

  /** The owned scopes around `scope`, outermost first. */
  ghost predicate OwnedAround(t: Tree, owners: map<ScopeId, nat>, scope: Option<ScopeId>, around: seq<ScopeId>)
    requires WellFormed(t) && (scope.Some? ==> scope.value < |t.scopes|)
  {
    && (forall i, j :: 0 <= i < j < |around| ==> around[i] < around[j])
    && forall s: nat :: s in around <==>
         && s in owners && scope.Some? && Encloses(t, s, scope.value)
         && s < |t.scopes| && t.scopes[s].kind == ScopeKind.Function
  }

  /** A chain is the names of the owned functions around, whatever functions without a name lie between. */
  lemma {:induction false} ChainNamesOwners(
      t: Tree, defs: seq<FnDef>, owners: map<ScopeId, nat>, scope: Option<ScopeId>) returns (around: seq<ScopeId>)
    requires WellFormed(t) && (scope.Some? ==> scope.value < |t.scopes|)
    requires forall s :: s in owners ==> owners[s] < |defs|
    ensures OwnedAround(t, owners, scope, around)
    ensures var chain := Chain(t, defs, owners, scope);
      |chain| == |around| && forall i :: 0 <= i < |around| ==> chain[i] == Name(defs[owners[around[i]]])
    decreases if scope.Some? then scope.value + 1 else 0
  {
    match scope {
      case None => around := [];
      case Some(s) =>
        var outer := ChainNamesOwners(t, defs, owners, t.scopes[s].parent);
        around := outer + if t.scopes[s].kind == ScopeKind.Function && s in owners then [s] else [];
        forall o: nat
          ensures Encloses(t, o, s) <==>
            o == s || (t.scopes[s].parent.Some? && Encloses(t, o, t.scopes[s].parent.value))
        {
        }
        forall i | 0 <= i < |outer| ensures outer[i] < s {
          assert outer[i] in outer;
          EnclosingIsEarlier(t, outer[i], t.scopes[s].parent.value);
        }
    }
  }

  /** The address of a function: the names of the named functions around its binding, and its own. */
  lemma PathNamesOwners(src: Source, k: nat) returns (around: seq<ScopeId>)
    requires Valid(src) && k < |Functions(src).defs|
    ensures Owned(Functions(src)) && Bound(src.tree, Functions(src))
    ensures NamesAround(src.tree, Functions(src), k, around)
  {
    var f, defs := Functions(src), DefsBelow(src, |src.tree.bindings|);
    FunctionsAreSound(src);
    forall j: nat | j < |defs|
      ensures f.defs[j].binding == defs[j].binding && Name(defs[j]) == src.tree.bindings[defs[j].binding].name
    {
      DefIsItsBinding(src, |src.tree.bindings|, j);
    }
    around := AddressNames(src, defs, f.owners, k);
    assert f.defs[k] == Addressed(src, defs, f.owners, k);
    NamesAreBound(src.tree, f, defs, k, around);
  }

  lemma NamesAreBound(t: Tree, f: FileFunctions, defs: seq<FnDef>, k: nat, around: seq<ScopeId>)
    requires WellFormed(t) && Owned(f) && Bound(t, f) && |defs| == |f.defs| && k < |defs|
    requires forall j: nat :: j < |defs| ==>
      f.defs[j].binding == defs[j].binding && Name(defs[j]) == t.bindings[f.defs[j].binding].name
    requires OwnedAround(t, f.owners, Some(t.bindings[f.defs[k].binding].scope), around)
    requires |f.defs[k].path| == |around| + 1 && f.defs[k].path[|around|] == Name(defs[k])
    requires forall i :: 0 <= i < |around| ==>
      around[i] in f.owners && f.defs[k].path[i] == Name(defs[f.owners[around[i]]])
    ensures NamesAround(t, f, k, around)
  {
  }

  /** The path of a function is the names of the functions that own these scopes, and the name it is bound to. */
  ghost predicate NamesAround(t: Tree, f: FileFunctions, k: nat, around: seq<ScopeId>)
    requires WellFormed(t) && Owned(f) && Bound(t, f) && k < |f.defs|
  {
    && OwnedAround(t, f.owners, Some(t.bindings[f.defs[k].binding].scope), around)
    && |f.defs[k].path| == |around| + 1
    && f.defs[k].path[|around|] == t.bindings[f.defs[k].binding].name
    && forall i :: 0 <= i < |around| ==>
         around[i] in f.owners && f.defs[k].path[i] == t.bindings[f.defs[f.owners[around[i]]].binding].name
  }

  lemma AddressNames(src: Source, defs: seq<FnDef>, owners: map<ScopeId, nat>, k: nat) returns (around: seq<ScopeId>)
    requires WellFormed(src.tree) && k < |defs|
    requires forall j :: 0 <= j < |defs| ==> defs[j].binding < |src.tree.bindings|
    requires forall s :: s in owners ==> owners[s] < |defs|
    ensures OwnedAround(src.tree, owners, Some(src.tree.bindings[defs[k].binding].scope), around)
    ensures var path := Addressed(src, defs, owners, k).path;
      && |path| == |around| + 1 && path[|around|] == Name(defs[k])
      && forall i :: 0 <= i < |around| ==> around[i] in owners && path[i] == Name(defs[owners[around[i]]])
  {
    around := ChainNamesOwners(src.tree, defs, owners, Some(src.tree.bindings[defs[k].binding].scope));
    forall i | 0 <= i < |around| ensures around[i] in owners {
      assert around[i] in around;
    }
  }

  /** A function bound directly in another's body is addressed below it. */
  lemma NestedPathExtendsOwner(src: Source, k: nat, s: ScopeId, j: nat)
    requires Valid(src) && k < |Functions(src).defs| && j < |Functions(src).defs|
    requires Bound(src.tree, Functions(src))
    requires src.tree.bindings[Functions(src).defs[k].binding].scope == s
    requires s in Functions(src).owners && Functions(src).owners[s] == j
    requires src.tree.scopes[s].parent == Some(src.tree.bindings[Functions(src).defs[j].binding].scope)
    ensures Functions(src).defs[k].path
         == Functions(src).defs[j].path + [src.tree.bindings[Functions(src).defs[k].binding].name]
  {
    var defs := DefsBelow(src, |src.tree.bindings|);
    var owners := OwnersOf(src.tree, defs);
    OwnersOpen(src);
    DefsAreNamed(src, k);
    assert src.tree.scopes[s].kind == ScopeKind.Function;
    assert Chain(src.tree, defs, owners, Some(s))
        == Chain(src.tree, defs, owners, src.tree.scopes[s].parent) + [Name(defs[j])];
  }

  /** A function bound directly in a top-level function that has no name is addressed by its bare name. */
  lemma AnonymousPathIsBare(src: Source, k: nat, s: ScopeId)
    requires Valid(src) && k < |Functions(src).defs| && Bound(src.tree, Functions(src))
    requires src.tree.bindings[Functions(src).defs[k].binding].scope == s && src.tree.scopes[s].parent == Some(0)
    requires s !in Functions(src).owners && src.tree.scopes[0].kind == File
    ensures Functions(src).defs[k].path == [src.tree.bindings[Functions(src).defs[k].binding].name]
  {
    var defs := DefsBelow(src, |src.tree.bindings|);
    var owners := OwnersOf(src.tree, defs);
    DefsAreNamed(src, k);
    assert src.tree.scopes[0].parent == None;
    assert Chain(src.tree, defs, owners, None) == [];
    assert Chain(src.tree, defs, owners, Some(0)) == [];
    assert Chain(src.tree, defs, owners, Some(s)) == [];
  }

  /** A definition is found again by its binding. */
  lemma DefIsFoundByBinding(src: Source, k: nat)
    requires Valid(src) && k < |Functions(src).defs|
    ensures ByBinding(Functions(src).defs, Functions(src).defs[k].binding) == Some(k)
  {
    var f := Functions(src);
    forall j | 0 <= j < |f.defs| && f.defs[j].binding == f.defs[k].binding ensures j == k {
      BindingsDiffer(src, j, k);
    }
    assert ByBinding(f.defs, f.defs[k].binding).Some?;
  }

  lemma BindingsDiffer(src: Source, j: nat, k: nat)
    requires Valid(src) && j < |Functions(src).defs| && k < |Functions(src).defs|
    ensures j != k ==> Functions(src).defs[j].binding != Functions(src).defs[k].binding
  {
    if j < k {
      DefsFollowBindings(src, |src.tree.bindings|, j, k);
    } else if k < j {
      DefsFollowBindings(src, |src.tree.bindings|, k, j);
    }
  }

  /** What the definitions of a file guarantee about owners and bindings. */
  lemma FunctionsAreSound(src: Source)
    requires Valid(src)
    ensures Owned(Functions(src)) && Bound(src.tree, Functions(src))
  {
    OwnersOpen(src);
    forall k | 0 <= k < |Functions(src).defs| ensures Functions(src).defs[k].binding < |src.tree.bindings| {
      DefsAreNamed(src, k);
    }
  }

  /** The path of a definition ends in the name its binding has, and the binding is an assignment. */
  ghost predicate IsNamedDef(src: Source, def: FnDef) {
    && def.binding < |src.tree.bindings|
    && |def.path| > 0 && def.path[|def.path| - 1] == src.tree.bindings[def.binding].name
    && (src.tree.bindings[def.binding].kind == Local || src.tree.bindings[def.binding].kind == Implicit)
  }

  /**
   * The item a call belongs to lists it: no earlier definition has its path, and
   * its literal, which is what is walked, holds the call.
   */
  ghost predicate CallerLists(src: Source, call: Range)
    requires Valid(src)
  {
    var f := Functions(src);
    match Enclosing(src.tree, f.owners, call)
    case Some(k) => k < |f.defs| && ByPath(f.defs, f.defs[k].path) == Some(k) && f.defs[k].literal.Contains(call)
    case None => true
  }

  /** A call is listed by its caller alone, if it is listed at all. */
  lemma EachCallHasOneCaller(src: Source, call: Range, id: ItemId)
    requires Valid(src) && call in src.calls
    ensures var f := Functions(src);
      && Owned(f)
      && (call in CallsOf(src, f, id) <==> id == Caller(src.tree, f, call) && CallerLists(src, call))
  {
    var f := Functions(src);
    FunctionsAreSound(src);
    ListedIffOwner(src, f, call, id);
  }

  /** The scope that the literal of the named function `k` opens is around `scope`. */
  predicate IsInside(src: Source, k: nat, scope: ScopeId)
    requires Valid(src) && k < |Functions(src).defs| && scope < |src.tree.scopes|
  {
    match ScopeOf(src.tree, Functions(src).defs[k].literal)
    case Some(s) => Encloses(src.tree, s, scope)
    case None => false
  }

  /** A call belongs to the script exactly when it is inside no named function, anonymous ones or not. */
  lemma ScriptCallIff(src: Source, call: Range)
    requires Valid(src)
    ensures var f := Functions(src);
      && Owned(f)
      && (Caller(src.tree, f, call) == ScriptScope <==>
            forall k: nat :: k < |f.defs| ==> !IsInside(src, k, Innermost(src.tree, call.start)))
  {
    var t, f, inner := src.tree, Functions(src), Innermost(src.tree, call.start);
    OwnersOpen(src);
    NoOwnerIff(t, f.owners, inner);
    forall o: nat ensures o in f.owners && Encloses(t, o, inner) <==>
        exists k: nat :: k < |f.defs| && ScopeOf(t, f.defs[k].literal) == Some(o) && IsInside(src, k, inner)
    {
      OwnedIffOpened(src, o);
    }
  }

  /** A scope is owned exactly when the literal of some definition opens it. */
  lemma OwnedIffOpened(src: Source, s: ScopeId)
    requires Valid(src)
    ensures var f := Functions(src);
      s in f.owners <==> exists k: nat :: k < |f.defs| && ScopeOf(src.tree, f.defs[k].literal) == Some(s)
  {
    var f, defs := Functions(src), DefsBelow(src, |src.tree.bindings|);
    var opens := Opens(src.tree, defs);
    OwnerIsFirstToOpen(opens, s);
    assert forall k: nat :: k < |defs| ==> f.defs[k].literal == defs[k].literal;
    if Some(s) in opens {
      var k: nat :| k < |opens| && opens[k] == Some(s);
      assert ScopeOf(src.tree, f.defs[k].literal) == Some(s);
    } else if k: nat :| k < |f.defs| && ScopeOf(src.tree, f.defs[k].literal) == Some(s) {
      assert opens[k] == Some(s);
    }
  }

  /** And to a named function exactly when its scope is the nearest named one around the call. */
  lemma FunctionCallIff(src: Source, call: Range, k: nat)
    requires Valid(src) && k < |Functions(src).defs|
    ensures var f := Functions(src);
      Enclosing(src.tree, f.owners, call) == Some(k) <==>
        exists s :: s in f.owners && f.owners[s] == k
          && NearestOwned(src.tree, f.owners, s, Innermost(src.tree, call.start))
  {
    var t, f, inner := src.tree, Functions(src), Innermost(src.tree, call.start);
    NoOwnerIff(t, f.owners, inner);
    match Enclosing(t, f.owners, call) {
      case Some(j) =>
        OwnerIsNearest(t, f.owners, inner, j);
        var s :| s in f.owners && f.owners[s] == j && NearestOwned(t, f.owners, s, inner);
        forall r | r in f.owners && NearestOwned(t, f.owners, r, inner) ensures r == s {
          assert Encloses(t, r, inner) && Encloses(t, s, inner);
        }
      case None =>
    }
  }

  lemma ListedIffOwner(src: Source, f: FileFunctions, call: Range, id: ItemId)
    requires Valid(src) && call in src.calls
    ensures call in CallsOf(src, f, id)
       <==> match OwnerOfItem(f, id) case Some(owner) => IsOwnCall(src, f, owner, call) case None => false
  {
    match OwnerOfItem(f, id) {
      case Some(owner) => OwnCallsAre(src, f, owner, src.calls, call);
      case None =>
    }
  }

  /** A callee lies in the innermost scope around its start. */
  ghost predicate CallsPlaced(src: Source)
    requires Valid(src)
  {
    forall call :: call in src.calls ==> src.tree.scopes[Innermost(src.tree, call.start)].range.Contains(call)
  }

  /** A call lies in the literal of the function it belongs to. */
  lemma OwnerHoldsCall(src: Source, call: Range)
    requires Valid(src) && Contained(src.tree) && CallsPlaced(src) && call in src.calls
    ensures var f := Functions(src);
      match Enclosing(src.tree, f.owners, call)
      case Some(k) => k < |f.defs| && f.defs[k].literal.Contains(call)
      case None => true
  {
    var t, f := src.tree, Functions(src);
    OwnersOpen(src);
    if Enclosing(t, f.owners, call).Some? {
      var k := Enclosing(t, f.owners, call).value;
      OwnerIsNearest(t, f.owners, Innermost(t, call.start), k);
      var s :| s in f.owners && f.owners[s] == k && NearestOwned(t, f.owners, s, Innermost(t, call.start));
      OuterIsLonger(t, s, Innermost(t, call.start));
    }
  }

  /** Where scopes lie in their parents and calls in their scopes, only a shared path keeps a caller from listing a call. */
  lemma CallerListsIff(src: Source, call: Range)
    requires Valid(src) && Contained(src.tree) && CallsPlaced(src) && call in src.calls
    ensures CallerLists(src, call) <==>
      var f := Functions(src);
      match Enclosing(src.tree, f.owners, call)
      case Some(k) => k < |f.defs| && ByPath(f.defs, f.defs[k].path) == Some(k)
      case None => true
  {
    OwnerHoldsCall(src, call);
  }

  // --- The two directions ---------------------------------------------------------------------------------

  ghost predicate ListsOutgoing(src: Source, f: FileFunctions, id: ItemId, path: seq<string>, call: Range)
    requires Valid(src)
  {
    call in Under(Outgoing(src, f, id), path)
  }

  ghost predicate ListsIncoming(src: Source, f: FileFunctions, path: seq<string>, id: ItemId, call: Range)
    requires Valid(src) && Owned(f) && Bound(src.tree, f)
  {
    call in Under(Incoming(src, f, FunctionItem(path)), id)
  }

  lemma OutgoingIff(src: Source, f: FileFunctions, id: ItemId, path: seq<string>, call: Range)
    requires Valid(src)
    ensures ListsOutgoing(src, f, id, path, call)
       <==> call in CallsOf(src, f, id) && Callee(src, f, call) == Some(path)
  {
    var edges := OutgoingEdges(src, f, CallsOf(src, f, id));
    GroupsCollect(edges, path);
    SelectedAre(edges, path, call);
    OutgoingEdgesAre(src, f, CallsOf(src, f, id), path, call);
  }

  lemma IncomingIff(src: Source, f: FileFunctions, path: seq<string>, id: ItemId, call: Range)
    requires Valid(src) && Owned(f) && Bound(src.tree, f)
    ensures ListsIncoming(src, f, path, id, call)
       <==> IsSearched(src, path)
            && match VariableOf(src.tree, f, path)
               case Some(b) =>
                 call in VariableReads(src.tree, src.idents, b) && call in src.calls && id == Caller(src.tree, f, call)
               case None => false
  {
    match VariableOf(src.tree, f, path) {
      case Some(b) =>
        var spans := VariableReads(src.tree, src.idents, b);
        GroupsCollect(IncomingEdges(src, f, spans), id);
        SelectedAre(IncomingEdges(src, f, spans), id, call);
        IncomingEdgesAre(src, f, spans, id, call);
      case None =>
    }
  }

  /** Some read at a call reaches `c`. */
  ghost predicate ReadReaches(src: Source, call: Range, c: BindingId)
    requires Valid(src)
  {
    IsReadAt(src.idents, Edges(src.tree, src.idents), c, call)
  }

  /** Some read at a call reaches a binding of the variable that `b` belongs to. */
  ghost predicate ReachesVariable(src: Source, call: Range, b: BindingId)
    requires Valid(src) && b < |src.tree.bindings|
  {
    exists c :: c in Cohort(src.tree, b) && ReadReaches(src, call, c)
  }

  /** A call is among the reads of a variable exactly when a read at it reaches the variable. */
  lemma CallReadsVariable(src: Source, call: Range, b: BindingId)
    requires Valid(src) && b < |src.tree.bindings|
    ensures call in VariableReads(src.tree, src.idents, b) <==> ReachesVariable(src, call, b)
  {
    VariableReadsAre(src.tree, src.idents, b, call);
    var edges := Edges(src.tree, src.idents);
    assert forall c :: ReadReaches(src, call, c) <==> IsReadAt(src.idents, edges, c, call);
  }

  lemma SameCohortReached(src: Source, call: Range, b: BindingId, c: BindingId)
    requires Valid(src) && b < |src.tree.bindings| && c < |src.tree.bindings|
    requires Cohort(src.tree, b) == Cohort(src.tree, c)
    ensures ReachesVariable(src, call, b) <==> ReachesVariable(src, call, c)
  {
  }

  /**
   * What decides each direction for any two items of any file: whether the caller
   * lists its calls and what path the callee has, against whether the variable
   * the path stands for is searched and reached.
   */
  lemma DirectionsByPath(src: Source, call: Range, id: ItemId, path: seq<string>)
    requires Valid(src) && call in src.calls
    ensures var f := Functions(src);
      && Owned(f) && Bound(src.tree, f)
      && (ListsOutgoing(src, f, id, path, call)
          <==> id == Caller(src.tree, f, call) && CallerLists(src, call) && Callee(src, f, call) == Some(path))
      && (ListsIncoming(src, f, path, id, call)
          <==> id == Caller(src.tree, f, call) && IsSearched(src, path)
               && match VariableOf(src.tree, f, path)
                  case Some(b) => ReachesVariable(src, call, b)
                  case None => false)
  {
    var f := Functions(src);
    FunctionsAreSound(src);
    OutgoingIff(src, f, id, path, call);
    EachCallHasOneCaller(src, call, id);
    IncomingIff(src, f, path, id, call);
    match VariableOf(src.tree, f, path) {
      case Some(b) => CallReadsVariable(src, call, b);
      case None =>
    }
  }

  /**
   * The outgoing calls of an item list a call under the `k`th definition exactly
   * when the incoming calls of that definition list the call under the item.
   */
  ghost predicate AgreeAt(src: Source, call: Range, id: ItemId, k: nat)
    requires Valid(src) && k < |Functions(src).defs|
  {
    var f := Functions(src);
    && Owned(f) && Bound(src.tree, f)
    && (ListsOutgoing(src, f, id, f.defs[k].path, call) <==> ListsIncoming(src, f, f.defs[k].path, id, call))
  }

  /** The two directions agree on a call, whatever the calling item and whatever the function. */
  ghost predicate Agree(src: Source, call: Range)
    requires Valid(src)
  {
    forall id: ItemId, k: nat :: k < |Functions(src).defs| ==> AgreeAt(src, call, id, k)
  }

  /** The definition that the callee resolves to. */
  function CalleeDef(src: Source, call: Range): (k: Option<nat>)
    requires Valid(src)
    ensures k.Some? ==> k.value < |Functions(src).defs|
  {
    match CalleeBinding(src, call)
    case Some(b) => ByBinding(Functions(src).defs, b)
    case None => None
  }

  /** The variable that a definition's path stands for is its own. */
  ghost predicate StandsForItself(src: Source, k: nat)
    requires Valid(src) && k < |Functions(src).defs|
  {
    var f := Functions(src);
    && Bound(src.tree, f)
    && match VariableOf(src.tree, f, f.defs[k].path)
       case Some(b) => Cohort(src.tree, b) == Cohort(src.tree, f.defs[k].binding)
       case None => false
  }

  /** A read at a call reaches the variable that a definition's path stands for. */
  ghost predicate ReachesPathOf(src: Source, call: Range, k: nat)
    requires Valid(src) && k < |Functions(src).defs|
  {
    var f := Functions(src);
    && Bound(src.tree, f)
    && match VariableOf(src.tree, f, f.defs[k].path)
       case Some(b) => ReachesVariable(src, call, b)
       case None => false
  }

  /** It does, and the file is searched for the path. */
  ghost predicate FindsPathOf(src: Source, call: Range, k: nat)
    requires Valid(src) && k < |Functions(src).defs|
  {
    IsSearched(src, Functions(src).defs[k].path) && ReachesPathOf(src, call, k)
  }

  /** The callee resolves to a definition with the path of the `k`th. */
  predicate CallsPathOf(src: Source, call: Range, k: nat)
    requires Valid(src) && k < |Functions(src).defs|
  {
    Callee(src, Functions(src), call) == Some(Functions(src).defs[k].path)
  }

  /** The function a call resolves to has a bare name, and the index does not have the file. */
  ghost predicate CalleeUnindexed(src: Source, call: Range)
    requires Valid(src)
  {
    match CalleeDef(src, call)
    case Some(k) => !IsSearched(src, Functions(src).defs[k].path)
    case None => false
  }

  /** No read at the call reaches the variable of the function it resolves to. */
  ghost predicate CalleeUnseen(src: Source, call: Range)
    requires Valid(src)
  {
    match CalleeDef(src, call)
    case Some(k) =>
      && StandsForItself(src, k) && Functions(src).defs[k].binding < |src.tree.bindings|
      && !ReachesVariable(src, call, Functions(src).defs[k].binding)
    case None => false
  }

  /** The function it resolves to has a path that stands for no variable, or for another one, which no read reaches. */
  ghost predicate CalleeMisaddressed(src: Source, call: Range)
    requires Valid(src)
  {
    match CalleeDef(src, call)
    case Some(k) => !StandsForItself(src, k) && !ReachesPathOf(src, call, k)
    case None => false
  }

  /** A read reaches what some path that is searched stands for, and the callee resolves to no definition with that path. */
  ghost predicate ReachesAnother(src: Source, call: Range)
    requires Valid(src)
  {
    exists k: nat :: k < |Functions(src).defs| && FindsPathOf(src, call, k) && !CallsPathOf(src, call, k)
  }

  /** The item a call belongs to does not list it, and a read reaches what some path that is searched stands for. */
  ghost predicate CallerHidden(src: Source, call: Range)
    requires Valid(src)
  {
    !CallerLists(src, call) && exists k: nat :: k < |Functions(src).defs| && FindsPathOf(src, call, k)
  }

  /** The caller lists the call under the path of the `k`th definition exactly when the path is found. */
  ghost predicate ListedAsFound(src: Source, call: Range, k: nat)
    requires Valid(src) && k < |Functions(src).defs|
  {
    CallerLists(src, call) && CallsPathOf(src, call, k) <==> FindsPathOf(src, call, k)
  }

  lemma AgreeAtIff(src: Source, call: Range, id: ItemId, k: nat)
    requires Valid(src) && call in src.calls && k < |Functions(src).defs|
    ensures Owned(Functions(src))
    ensures AgreeAt(src, call, id, k)
       <==> (id == Caller(src.tree, Functions(src), call) ==> ListedAsFound(src, call, k))
  {
    DirectionsByPath(src, call, id, Functions(src).defs[k].path);
  }

  /** Only the caller matters, and for it the callee's path against what is found. */
  lemma AgreeIff(src: Source, call: Range)
    requires Valid(src) && call in src.calls
    ensures Agree(src, call)
       <==> forall k: nat :: k < |Functions(src).defs| ==> ListedAsFound(src, call, k)
  {
    FunctionsAreSound(src);
    var caller := Caller(src.tree, Functions(src), call);
    forall id: ItemId, k: nat | k < |Functions(src).defs|
      ensures AgreeAt(src, call, id, k)
         <==> (id == caller ==> ListedAsFound(src, call, k))
    {
      AgreeAtIff(src, call, id, k);
    }
    forall k: nat | Agree(src, call) && k < |Functions(src).defs|
      ensures ListedAsFound(src, call, k)
    {
      assert AgreeAt(src, call, caller, k);
    }
  }

  /** The path of the callee is found unless the callee is unindexed, unseen or misaddressed. */
  lemma CalleeIsFoundIff(src: Source, call: Range)
    requires Valid(src)
    ensures CalleeUnindexed(src, call) || CalleeUnseen(src, call) || CalleeMisaddressed(src, call)
       <==> exists k: nat :: k < |Functions(src).defs| && CallsPathOf(src, call, k) && !FindsPathOf(src, call, k)
  {
    FunctionsAreSound(src);
    match CalleeDef(src, call) {
      case Some(k) =>
        assert CallsPathOf(src, call, k);
        assert forall j: nat :: j < |Functions(src).defs| && CallsPathOf(src, call, j) ==>
          (FindsPathOf(src, call, j) <==> FindsPathOf(src, call, k));
        OwnPathIsReached(src, call, k);
      case None =>
    }
  }

  lemma OwnPathIsReached(src: Source, call: Range, k: nat)
    requires Valid(src) && k < |Functions(src).defs|
    ensures Functions(src).defs[k].binding < |src.tree.bindings|
    ensures StandsForItself(src, k) ==>
      (ReachesPathOf(src, call, k) <==> ReachesVariable(src, call, Functions(src).defs[k].binding))
  {
    FunctionsAreSound(src);
    if StandsForItself(src, k) {
      var b := VariableOf(src.tree, Functions(src), Functions(src).defs[k].path).value;
      SameCohortReached(src, call, b, Functions(src).defs[k].binding);
    }
  }

  /**
   * The two directions disagree on a call in just five ways: its caller is hidden;
   * or its caller lists it, and the callee is unindexed, unseen or misaddressed,
   * or a read reaches another function.
   */
  lemma DirectionsAgreeIff(src: Source, call: Range)
    requires Valid(src) && call in src.calls
    ensures Agree(src, call)
       <==> && !CallerHidden(src, call)
            && (CallerLists(src, call) ==>
                  && !CalleeUnindexed(src, call) && !CalleeUnseen(src, call) && !CalleeMisaddressed(src, call)
                  && !ReachesAnother(src, call))
  {
    AgreeIff(src, call);
    CalleeIsFoundIff(src, call);
    ListedAsFoundIff(src, call);
  }

  /** One way for a call to be listed and not found, and two to be found and not listed. */
  lemma ListedAsFoundIff(src: Source, call: Range)
    requires Valid(src)
    ensures (forall k: nat :: k < |Functions(src).defs| ==> ListedAsFound(src, call, k))
       <==> && !CallerHidden(src, call)
            && (CallerLists(src, call) ==>
                  && !ReachesAnother(src, call)
                  && !exists k: nat ::
                       k < |Functions(src).defs| && CallsPathOf(src, call, k) && !FindsPathOf(src, call, k))
  {
    if k: nat :| k < |Functions(src).defs| && FindsPathOf(src, call, k) && !CallerLists(src, call) {
      assert !ListedAsFound(src, call, k);
    }
    if k: nat :| k < |Functions(src).defs| && FindsPathOf(src, call, k) && !CallsPathOf(src, call, k) {
      assert !ListedAsFound(src, call, k);
    }
    if k: nat :| k < |Functions(src).defs| && CallsPathOf(src, call, k) && !FindsPathOf(src, call, k) && CallerLists(src, call) {
      assert !ListedAsFound(src, call, k);
    }
    if k: nat :| k < |Functions(src).defs| && !ListedAsFound(src, call, k) {
      assert FindsPathOf(src, call, k) || (CallsPathOf(src, call, k) && CallerLists(src, call));
    }
  }

  // --- Which paths stand for their own functions ------------------------------------------------------------

  /** Each definition has a path of its own. */
  ghost predicate DistinctPaths(f: FileFunctions) {
    forall j, k :: 0 <= j < k < |f.defs| ==> f.defs[j].path != f.defs[k].path
  }

  /** The file is the outermost scope and the only one of its kind. */
  ghost predicate OneFile(t: Tree) {
    forall s :: 0 < s < |t.scopes| ==> t.scopes[s].kind != File
  }

  /** Incoming calls look for the variable of this definition: it is nested under a name, or at top level. */
  ghost predicate Findable(src: Source, def: FnDef)
    requires Valid(src) && def.binding < |src.tree.bindings|
  {
    |def.path| > 1 || AtFileScope(src.tree, def.binding)
  }

  /** A definition whose variable the incoming calls look for. */
  ghost predicate FindableAt(src: Source, k: nat)
    requires Valid(src)
  {
    && k < |Functions(src).defs|
    && Functions(src).defs[k].binding < |src.tree.bindings|
    && Findable(src, Functions(src).defs[k])
  }

  /** The path of a findable definition stands for its own variable. */
  lemma FindableIsFound(src: Source, k: nat)
    requires Valid(src) && OneFile(src.tree) && DistinctPaths(Functions(src)) && FindableAt(src, k)
    ensures StandsForItself(src, k)
  {
    var t, f := src.tree, Functions(src);
    FunctionsAreSound(src);
    var def := f.defs[k];
    DefsAreNamed(src, k);
    if |def.path| == 1 {
      assert IsFileScopeName(t, def.binding, def.path[0]);
      var b := FileScopeBinding(t, def.path[0], 0).value;
      assert t.bindings[b].scope == 0 && t.bindings[def.binding].scope == 0;
      assert SameVariable(t, b, def.binding);
      CohortsPartition(t, b, def.binding);
    } else {
      assert ByPath(f.defs, def.path) == Some(k);
    }
  }

  /** A findable definition's path stands for its own variable. Where only functions open scopes, no other's does. */
  lemma FindableIffItself(src: Source, k: nat)
    requires Valid(src) && DistinctPaths(Functions(src)) && k < |Functions(src).defs|
    requires forall s :: 0 < s < |src.tree.scopes| ==> src.tree.scopes[s].kind == ScopeKind.Function
    ensures StandsForItself(src, k) <==> FindableAt(src, k)
  {
    FunctionsAreSound(src);
    DefsAreNamed(src, k);
    if FindableAt(src, k) {
      FindableIsFound(src, k);
    } else {
      BareItselfIsTopLevel(src, k);
    }
  }

  /** A bare name that stands for the definition's own variable is bound in the file's frame. */
  lemma BareItselfIsTopLevel(src: Source, k: nat)
    requires Valid(src) && OneFile(src.tree) && k < |Functions(src).defs| && |Functions(src).defs[k].path| == 1
    ensures Functions(src).defs[k].binding < |src.tree.bindings|
    ensures StandsForItself(src, k) ==>
      Frame(src.tree, src.tree.bindings[Functions(src).defs[k].binding].scope) == 0
  {
    var t, f := src.tree, Functions(src);
    FunctionsAreSound(src);
    if StandsForItself(src, k) {
      var b := VariableOf(t, f, f.defs[k].path).value;
      CohortsPartition(t, b, b);
      assert SameVariable(t, f.defs[k].binding, b);
      assert t.bindings[b].scope == 0;
    }
  }

  lemma CalleeIs(src: Source, f: FileFunctions, call: Range, k: nat)
    requires Valid(src) && DistinctPaths(f) && k < |f.defs| && ByBinding(f.defs, f.defs[k].binding) == Some(k)
    ensures Callee(src, f, call) == Some(f.defs[k].path) <==> CalleeBinding(src, call) == Some(f.defs[k].binding)
  {
  }

  lemma PathIsFirst(f: FileFunctions, k: nat)
    requires DistinctPaths(f) && k < |f.defs|
    ensures ByPath(f.defs, f.defs[k].path) == Some(k)
  {
  }

  /** A file as the builder leaves it: one file scope, scopes in their parents, calls in their scopes. */
  ghost predicate Built(src: Source) {
    Valid(src) && OneFile(src.tree) && Contained(src.tree) && CallsPlaced(src)
  }

  /** In such a file with distinct paths every caller lists its calls. */
  lemma CallersList(src: Source, call: Range)
    requires Built(src) && DistinctPaths(Functions(src)) && call in src.calls
    ensures CallerLists(src, call)
  {
    CallerListsIff(src, call);
    OwnerHoldsCall(src, call);
    forall k | 0 <= k < |Functions(src).defs|
      ensures ByPath(Functions(src).defs, Functions(src).defs[k].path) == Some(k)
    {
      PathIsFirst(Functions(src), k);
    }
  }

  /**
   * What decides each direction for a findable definition. Outgoing calls list a
   * call under it when the callee resolves to that very binding and the caller
   * lists its calls; incoming calls when the path is searched and a read reaches
   * the function's variable.
   */
  lemma DirectionsAre(src: Source, call: Range, id: ItemId, k: nat)
    requires Valid(src) && OneFile(src.tree) && DistinctPaths(Functions(src))
    requires call in src.calls && FindableAt(src, k)
    ensures var f := Functions(src);
      && Owned(f) && Bound(src.tree, f)
      && (ListsOutgoing(src, f, id, f.defs[k].path, call)
          <==> id == Caller(src.tree, f, call) && CallerLists(src, call)
               && CalleeBinding(src, call) == Some(f.defs[k].binding))
      && (ListsIncoming(src, f, f.defs[k].path, id, call)
          <==> id == Caller(src.tree, f, call) && IsSearched(src, f.defs[k].path)
               && ReachesVariable(src, call, f.defs[k].binding))
  {
    var f := Functions(src);
    DirectionsByPath(src, call, id, f.defs[k].path);
    DefIsFoundByBinding(src, k);
    CalleeIs(src, f, call, k);
    FindableIsFound(src, k);
    OwnPathIsReached(src, call, k);
  }

  // --- Where each variable is bound once ----------------------------------------------------------------------

  /** What the first read at a call reaches. */
  function Reaches(src: Source, call: Range): seq<BindingId>
    requires Valid(src)
  {
    match IdentAt(src.idents, call)
    case Some(i) => Reached(src.tree, src.idents[i])
    case None => []
  }

  /** No two reads have the span of the call. */
  ghost predicate ReadOnce(src: Source, call: Range) {
    forall i, j :: 0 <= i < j < |src.idents| ==> !(src.idents[i].range == src.idents[j].range == call)
  }

  lemma SoleReadAt(idents: seq<Ident>, edges: seq<seq<BindingId>>, b: BindingId, call: Range)
    requires |edges| == |idents|
    requires forall i, j :: 0 <= i < j < |idents| ==> !(idents[i].range == idents[j].range == call)
    ensures IsReadAt(idents, edges, b, call)
       <==> match IdentAt(idents, call) case Some(i) => b in edges[i] case None => false
  {
    match IdentAt(idents, call) {
      case Some(i) => assert forall j :: 0 <= j < |idents| && idents[j].range == call ==> j == i;
      case None =>
    }
  }

  lemma ReadAtCall(src: Source, call: Range, b: BindingId)
    requires Valid(src) && ReadOnce(src, call)
    ensures ReadReaches(src, call, b) <==> b in Reaches(src, call)
  {
    SoleReadAt(src.idents, Edges(src.tree, src.idents), b, call);
  }

  lemma CohortIsSole(t: Tree, b: BindingId, c: BindingId)
    requires WellFormed(t) && OneBinding(t) && b < |t.bindings|
    ensures c in Cohort(t, b) <==> c == b
  {
    if c in Cohort(t, b) {
      assert c != b ==> !SameName(t, b, c);
    }
  }

  lemma SoleIsReached(src: Source, call: Range, b: BindingId)
    requires Valid(src) && OneBinding(src.tree) && ReadOnce(src, call) && b < |src.tree.bindings|
    ensures ReachesVariable(src, call, b) <==> b in Reaches(src, call)
  {
    ReadAtCall(src, call, b);
    forall c ensures c in Cohort(src.tree, b) <==> c == b {
      CohortIsSole(src.tree, b, c);
    }
  }

  /** The read at a call can see the binding it resolves to, if it resolves at all. */
  ghost predicate SeesCallee(src: Source, call: Range)
    requires Valid(src)
  {
    match IdentAt(src.idents, call)
    case Some(i) =>
      (match Resolve(src.tree, src.idents[i].scope, Key(src.idents[i].name))
       case Some(b) => Live(src.tree, src.idents[i], b)
       case None => true)
    case None => true
  }

  lemma ReachesCallee(src: Source, call: Range, b: BindingId)
    requires Valid(src) && OneBinding(src.tree) && ReadOnce(src, call) && b < |src.tree.bindings|
    ensures SeesCallee(src, call) ==> (ReachesVariable(src, call, b) <==> CalleeBinding(src, call) == Some(b))
    ensures !SeesCallee(src, call) && CalleeBinding(src, call) == Some(b) ==> !ReachesVariable(src, call, b)
  {
    SoleIsReached(src, call, b);
    match IdentAt(src.idents, call) {
      case Some(i) => ReachedIsResolvedIffLive(src.tree, src.idents[i]);
      case None =>
    }
  }

  /** The callee resolves to the very binding of a definition. */
  ghost predicate CallsDef(src: Source, call: Range, k: nat)
    requires Valid(src) && k < |Functions(src).defs|
  {
    CalleeBinding(src, call) == Some(Functions(src).defs[k].binding)
  }

  /** The call neither resolves to a definition nor reaches its binding. */
  ghost predicate MissesDef(src: Source, call: Range, k: nat)
    requires Valid(src) && k < |Functions(src).defs|
  {
    !CallsDef(src, call, k) && Functions(src).defs[k].binding !in Reaches(src, call)
  }

  lemma SeenOrMissed(src: Source, call: Range, k: nat)
    requires Valid(src) && OneFile(src.tree) && OneBinding(src.tree) && ReadOnce(src, call)
    requires DistinctPaths(Functions(src)) && FindableAt(src, k)
    ensures (CallsDef(src, call, k) <==> ReachesPathOf(src, call, k))
       <==> SeesCallee(src, call) || MissesDef(src, call, k)
  {
    var b := Functions(src).defs[k].binding;
    FindableIsFound(src, k);
    OwnPathIsReached(src, call, k);
    SoleIsReached(src, call, b);
    ReachesCallee(src, call, b);
  }

  /** A function that is not findable is never both resolved to and reached by a read that sees what it resolves to. */
  lemma UnfindableIsNotReached(src: Source, call: Range, k: nat)
    requires Valid(src) && OneBinding(src.tree) && ReadOnce(src, call) && SeesCallee(src, call)
    requires k < |Functions(src).defs| && !FindableAt(src, k)
    ensures !(CallsDef(src, call, k) && ReachesPathOf(src, call, k))
  {
    var f := Functions(src);
    FunctionsAreSound(src);
    DefsAreNamed(src, k);
    match VariableOf(src.tree, f, f.defs[k].path) {
      case Some(b) =>
        ReachesCallee(src, call, b);
        assert AtFileScope(src.tree, b);
      case None =>
    }
  }

  /** What a definition has to satisfy for the directions to agree on it, where each variable is bound once. */
  ghost predicate AgreesOn(src: Source, call: Range, k: nat)
    requires Valid(src) && k < |Functions(src).defs|
  {
    if !IsSearched(src, Functions(src).defs[k].path) then !CallsDef(src, call, k)
    else if FindableAt(src, k) then SeesCallee(src, call) || MissesDef(src, call, k)
    else if SeesCallee(src, call) then !CallsDef(src, call, k) && !ReachesPathOf(src, call, k)
    else CallsDef(src, call, k) <==> ReachesPathOf(src, call, k)
  }

  /**
   * Where each variable is bound once and each definition has its own path, the
   * directions agree on a call that its caller lists exactly when they agree on
   * every definition: one that is not searched is not what the call resolves to;
   * a findable one is no obstacle to a call that sees what it resolves to, and
   * otherwise neither resolved to nor reached; one bound inside an anonymous
   * function is neither resolved to nor does its bare name stand for what is
   * reached, or, if the call does not see what it resolves to, both.
   */
  lemma DirectionsAgreeWhereBoundOnce(src: Source, call: Range)
    requires Valid(src) && OneFile(src.tree) && OneBinding(src.tree) && DistinctPaths(Functions(src))
    requires call in src.calls && ReadOnce(src, call) && CallerLists(src, call)
    ensures Agree(src, call) <==> forall k: nat :: k < |Functions(src).defs| ==> AgreesOn(src, call, k)
  {
    AgreeIff(src, call);
    forall k: nat | k < |Functions(src).defs|
      ensures ListedAsFound(src, call, k) <==> AgreesOn(src, call, k)
    {
      DefIsFoundByBinding(src, k);
      CalleeIs(src, Functions(src), call, k);
      if FindableAt(src, k) {
        SeenOrMissed(src, call, k);
      } else if SeesCallee(src, call) {
        UnfindableIsNotReached(src, call, k);
      }
    }
  }

  /**
   * A function bound inside an anonymous one has a bare name for a path, so its
   * incoming calls are looked for under a top-level variable, and its own calls
   * are missed.
   */
  lemma UnfindableIsMissed(src: Source, call: Range, id: ItemId, k: nat)
    requires Valid(src) && OneBinding(src.tree) && ReadOnce(src, call)
    requires k < |Functions(src).defs| && !FindableAt(src, k)
    requires SeesCallee(src, call) && CalleeBinding(src, call) == Some(Functions(src).defs[k].binding)
    ensures var f := Functions(src);
      Owned(f) && Bound(src.tree, f) && !ListsIncoming(src, f, f.defs[k].path, id, call)
  {
    var f := Functions(src);
    FunctionsAreSound(src);
    IncomingIff(src, f, f.defs[k].path, id, call);
    UnfindableIsNotReached(src, call, k);
    match VariableOf(src.tree, f, f.defs[k].path) {
      case Some(b) => CallReadsVariable(src, call, b);
      case None =>
    }
  }
}
