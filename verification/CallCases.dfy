/**
 * Files on which the two directions of the call hierarchy disagree, against the
 * promise of `src/lsp/call_hierarchy.rs` that they never do: a call before the
 * definition it names, a call of a name that its own body binds further down,
 * a call of a name bound to something else before it is bound to a function, a
 * call of a function bound inside an anonymous one, a call in the second of two
 * functions with one name, and a call in a file that does not parse cleanly.
 * Each is given by the scopes, bindings, reads and calls of the text it quotes.
 * And one file whose call in a function without a name belongs to the named
 * function around it.
 */
module CallCases {
  import opened Common
  import opened Scopes
  import opened ReadSites
  import opened CallHierarchy

  /** The outgoing calls of its caller list the call of a function, and the incoming calls of the function do not. */
  ghost predicate OutgoingOnly(src: Source, call: Range, k: nat) {
    && Valid(src) && k < |Functions(src).defs| && Owned(Functions(src)) && Bound(src.tree, Functions(src))
    && var f := Functions(src);
       var caller, path := Caller(src.tree, f, call), f.defs[k].path;
       ListsOutgoing(src, f, caller, path, call) && !ListsIncoming(src, f, path, caller, call)
  }

  /** The incoming calls of a function list a call, and the outgoing calls of its caller do not. */
  ghost predicate IncomingOnly(src: Source, call: Range, k: nat) {
    && Valid(src) && k < |Functions(src).defs| && Owned(Functions(src)) && Bound(src.tree, Functions(src))
    && var f := Functions(src);
       var caller, path := Caller(src.tree, f, call), f.defs[k].path;
       ListsIncoming(src, f, path, caller, call) && !ListsOutgoing(src, f, caller, path, call)
  }

  /** A file as the builder leaves it, with no two definitions at one path. */
  ghost predicate Analysed(src: Source) {
    Built(src) && DistinctPaths(Functions(src))
  }

  /** What the first read at a call reaches is reached. */
  lemma ReachesIsRead(src: Source, call: Range, b: BindingId)
    requires Valid(src) && b in Reaches(src, call)
    ensures ReadReaches(src, call, b)
  {
    var i := IdentAt(src.idents, call).value;
    assert b in Edges(src.tree, src.idents)[i];
  }

  /** A definition bound at top level is findable, under its bare name. */
  lemma TopLevelIsFindable(src: Source, k: nat)
    requires Valid(src) && src.tree.scopes[0].kind == File && k < |Functions(src).defs|
    requires Functions(src).defs[k].binding < |src.tree.bindings|
    requires src.tree.bindings[Functions(src).defs[k].binding].scope == 0
    ensures FindableAt(src, k)
    ensures Functions(src).defs[k].path == [src.tree.bindings[Functions(src).defs[k].binding].name]
  {
    TopLevelPath(src, k);
  }

  /** Every binding is at top level, listed in order, and every other scope is directly below. */
  predicate Flat(t: Tree) {
    && |t.scopes| > 0 && t.scopes[0].parent == None
    && (forall s :: 0 < s < |t.scopes| ==> t.scopes[s].parent == Some(0) && t.scopes[s].bindings == [])
    && |t.scopes[0].bindings| == |t.bindings|
    && (forall b :: 0 <= b < |t.bindings| ==> t.scopes[0].bindings[b] == b && t.bindings[b].scope == 0)
  }

  lemma FlatIsWellFormed(t: Tree)
    requires Flat(t)
    ensures WellFormed(t)
  {
    forall b: nat | b < |t.bindings| ensures b in t.scopes[t.bindings[b].scope].bindings {
      assert t.scopes[0].bindings[b] == b;
    }
  }

  lemma FlatNests(t: Tree)
    requires Flat(t) && WellFormed(t)
    requires forall s :: 0 <= s < |t.scopes| ==> InParent(t, s)
    requires forall a, b :: 0 < a < b < |t.scopes| ==> Apart(t, a, b)
    ensures Nested(t)
  {
    assert Encloses(t, 0, 0);
    assert forall s: nat :: 0 < s < |t.scopes| ==> Encloses(t, 0, s);
  }

  /** Any scope that holds where a call starts holds all of it, and some scope does. */
  predicate IsHeld(t: Tree, call: Range)
    requires |t.scopes| > 0
  {
    && Holds(t, 0, call.start)
    && forall s :: 0 <= s < |t.scopes| && Holds(t, s, call.start) ==> t.scopes[s].range.Contains(call)
  }

  lemma CallIsHeld(t: Tree, call: Range)
    requires WellFormed(t) && IsHeld(t, call)
    ensures t.scopes[Innermost(t, call.start)].range.Contains(call)
  {
    assert Holds(t, Innermost(t, call.start), call.start);
  }

  lemma SoleCallIsPlaced(src: Source, call: Range)
    requires Valid(src) && src.calls == [call] && IsHeld(src.tree, call)
    ensures CallsPlaced(src)
  {
    CallIsHeld(src.tree, call);
  }

  // --- A call before its definition -----------------------------------------------

  /** The file `f(); f <- function() 1`, whose call comes before the function it names. */
  function EarlyCall(): Source {
    var file := Scope(File, None, Range(0, 22), [0]);
    var body := Scope(ScopeKind.Function, Some(0), Range(10, 22), []);
    Source(Tree([file, body], [Binding("f", Local, 0, Range(5, 6), None)]),
           [Ident("f", Range(0, 1), 0, false)],
           [Assign(Range(5, 6), Range(5, 22), Range(10, 22))],
           [Range(0, 1)], true)
  }

  lemma EarlyCallIsPlain()
    ensures Built(EarlyCall())
  {
    FlatIsWellFormed(EarlyCall().tree);
    FlatNests(EarlyCall().tree);
    SoleCallIsPlaced(EarlyCall(), Range(0, 1));
  }

  lemma EarlyCallDefs()
    ensures DefsBelow(EarlyCall(), 1) == [FnDef(["f"], 0, Range(5, 6), Range(5, 22), Range(10, 22))]
  {
    var src := EarlyCall();
    assert DefsBelow(src, 0) == [];
    assert src.assigns[|src.assigns| - 1] == src.assigns[0];
    assert Defines(src, 0) == Some(src.assigns[0]);
  }

  /** Its early call is listed under the script, and nothing is incoming to `f`. */
  lemma EarlyCallIsListedOneWay()
    ensures Analysed(EarlyCall()) && OutgoingOnly(EarlyCall(), Range(0, 1), 0)
  {
    var src := EarlyCall();
    EarlyCallIsPlain();
    EarlyCallDefs();
    TopLevelIsFindable(src, 0);
    EarlyCallReaches();
    FunctionsAreSound(src);
    CallersList(src, Range(0, 1));
    forall c ensures !ReadReaches(src, Range(0, 1), c) {
      ReadAtCall(src, Range(0, 1), c);
    }
    DirectionsAre(src, Range(0, 1), Caller(src.tree, Functions(src), Range(0, 1)), 0);
  }

  lemma EarlyCallReaches()
    ensures var src := EarlyCall();
      && Valid(src) && CalleeBinding(src, Range(0, 1)) == Some(0)
      && Reaches(src, Range(0, 1)) == []
  {
    var src := EarlyCall();
    EarlyCallIsPlain();
    assert IdentAt(src.idents, Range(0, 1)) == Some(0);
    FirstNamedAt(src.tree, [0], "f", 0);
    assert Key("f") == "f";
    assert Named(src.tree, [0], "f") == [0] by {
      assert [0][..0] == [];
    }
    assert Hits(src.tree, src.idents[0], true, [0]) == [] by {
      assert [0][..0] == [];
    }
  }

  // --- A local variable bound below the call -------------------------------------

  /**
   * The file `g <- function() { f(); f <- 1 }; f <- function() 2`. The call
   * resolves to the `f` of the same body, which it cannot see yet, and reaches
   * the function outside.
   */
  function ShadowedCall(): Source {
    var file := Scope(File, None, Range(0, 50), [1, 2]);
    var body := Scope(ScopeKind.Function, Some(0), Range(5, 31), [0]);
    var other := Scope(ScopeKind.Function, Some(0), Range(38, 50), []);
    var bindings := [Binding("f", Local, 1, Range(23, 24), None),
                     Binding("g", Local, 0, Range(0, 1), None),
                     Binding("f", Local, 0, Range(33, 34), None)];
    Source(Tree([file, body, other], bindings),
           [Ident("f", Range(18, 19), 1, false)],
           [Assign(Range(0, 1), Range(0, 31), Range(5, 31)), Assign(Range(33, 34), Range(33, 50), Range(38, 50))],
           [Range(18, 19)], true)
  }

  lemma ShadowedCallIsWellFormed()
    ensures WellFormed(ShadowedCall().tree)
  {
    var t := ShadowedCall().tree;
    assert t.scopes[0].bindings == [1, 2] && t.scopes[1].bindings == [0];
    assert t.scopes[0].bindings[0] == 1 && t.scopes[0].bindings[1] == 2 && t.scopes[1].bindings[0] == 0;
  }

  lemma ShadowedCallIsNested()
    ensures WellFormed(ShadowedCall().tree) && Nested(ShadowedCall().tree)
  {
    var t := ShadowedCall().tree;
    ShadowedCallIsWellFormed();
    assert Encloses(t, 0, 0);
    assert Encloses(t, 0, 1) && Encloses(t, 0, 2);
    assert Apart(t, 1, 2);
  }

  lemma ShadowedCallIsPlaced()
    ensures Valid(ShadowedCall()) && CallsPlaced(ShadowedCall())
  {
    ShadowedCallIsWellFormed();
    SoleCallIsPlaced(ShadowedCall(), Range(18, 19));
  }

  lemma ShadowedCallIsPlain()
    ensures Built(ShadowedCall())
  {
    ShadowedCallIsNested();
    ShadowedCallIsPlaced();
  }

  lemma ShadowedCallTargets()
    ensures var src := ShadowedCall();
      && Defines(src, 0) == None
      && Defines(src, 1) == Some(src.assigns[0]) && Defines(src, 2) == Some(src.assigns[1])
  {
    var src := ShadowedCall();
    var a := src.assigns;
    assert a[..1] == [a[0]] && a[..1][..0] == [];
    assert forall r: Range :: TargetOf(a[..1], r) == if a[0].target == r then Some(a[0]) else None;
    assert forall r: Range :: TargetOf(a, r) == if a[1].target == r then Some(a[1]) else TargetOf(a[..1], r);
  }

  lemma ShadowedCallDefs()
    ensures DefsBelow(ShadowedCall(), 3)
         == [FnDef(["g"], 1, Range(0, 1), Range(0, 31), Range(5, 31)),
             FnDef(["f"], 2, Range(33, 34), Range(33, 50), Range(38, 50))]
  {
    var src := ShadowedCall();
    ShadowedCallTargets();
    assert DefsBelow(src, 0) == [];
    assert DefsBelow(src, 1) == [];
    assert DefsBelow(src, 2) == [FnDef(["g"], 1, Range(0, 1), Range(0, 31), Range(5, 31))];
  }

  /** What the read at its call passes over, and what it then meets. */
  lemma ShadowedCallHits()
    ensures var t, ident := ShadowedCall().tree, ShadowedCall().idents[0];
      && WellFormed(t)
      && Hits(t, ident, true, NamedIn(t, 1, "f")) == []
      && 2 in Hits(t, ident, false, NamedIn(t, 0, "f"))
  {
    var t, ident := ShadowedCall().tree, ShadowedCall().idents[0];
    ShadowedCallIsWellFormed();
    assert Key("f") == "f";
    assert t.scopes[1].bindings == [0] && t.scopes[0].bindings[1] == 2;
    PassesOver(t, ident, 1, "f", 0);
    Meets(t, ident, 0, "f", 2);
  }

  lemma PassesOver(t: Tree, ident: Ident, scope: ScopeId, key: string, b: BindingId)
    requires WellFormed(t) && scope < |t.scopes| && t.scopes[scope].bindings == [b]
    requires b < |t.bindings| && !Hit(t, ident, true, b)
    ensures Hits(t, ident, true, NamedIn(t, scope, key)) == []
  {
    var hits := Hits(t, ident, true, NamedIn(t, scope, key));
    HitsAre(t, ident, true, NamedIn(t, scope, key));
    FirstIsMember(hits);
  }

  lemma FirstIsMember<T>(s: seq<T>)
    ensures s == [] || s[0] in s
  {
  }

  lemma Meets(t: Tree, ident: Ident, scope: ScopeId, key: string, b: BindingId)
    requires WellFormed(t) && scope < |t.scopes| && b in t.scopes[scope].bindings
    requires b < |t.bindings| && Key(t.bindings[b].name) == key && t.bindings[b].defRange != ident.range
    ensures b in Hits(t, ident, false, NamedIn(t, scope, key))
  {
    HitsAre(t, ident, false, NamedIn(t, scope, key));
  }

  lemma ReachesOutside(t: Tree, ident: Ident, b: BindingId)
    requires WellFormed(t) && ident.scope < |t.scopes| && t.scopes[ident.scope].kind == ScopeKind.Function
    requires t.scopes[ident.scope].parent == Some(0)
    requires Hits(t, ident, true, NamedIn(t, ident.scope, Key(ident.name))) == []
    requires b in Hits(t, ident, false, NamedIn(t, 0, Key(ident.name)))
    ensures b in Reached(t, ident)
  {
    assert Reached(t, ident) == ReachedFrom(t, ident, 0, false);
  }

  /** Its call reaches past the local `f` to the function outside. */
  lemma ShadowedCallReaches()
    ensures var src := ShadowedCall();
      && Valid(src) && CalleeBinding(src, Range(18, 19)) == Some(0) && 2 in Reaches(src, Range(18, 19))
  {
    var src := ShadowedCall();
    ShadowedCallIsPlain();
    assert IdentAt(src.idents, Range(18, 19)) == Some(0);
    assert Key("f") == "f";
    FirstNamedAt(src.tree, [0], "f", 0);
    ShadowedCallHits();
    ReachesOutside(src.tree, src.idents[0], 2);
  }

  lemma TwoPathsDiffer(f: FileFunctions)
    requires |f.defs| == 2 && f.defs[0].path == ["g"] && f.defs[1].path == ["f"]
    ensures DistinctPaths(f)
  {
    assert ["g"][0] != ["f"][0];
  }

  lemma ShadowedCallHasTwoDefs()
    ensures var src := ShadowedCall();
      && Valid(src) && |Functions(src).defs| == 2
      && Functions(src).defs[0].binding == 1 && Functions(src).defs[1].binding == 2
  {
    ShadowedCallIsPlain();
    ShadowedCallDefs();
  }

  lemma ShadowedCallIsAnalysed()
    ensures var src := ShadowedCall();
      && Analysed(src) && FindableAt(src, 1) && Functions(src).defs[1].binding == 2
  {
    var src := ShadowedCall();
    ShadowedCallIsPlain();
    ShadowedCallHasTwoDefs();
    TopLevelIsFindable(src, 0);
    TopLevelIsFindable(src, 1);
    TwoPathsDiffer(Functions(src));
  }

  /** The call is incoming to the outer `f` from `g`, and `g` calls nothing. */
  lemma ShadowedCallIsListedOneWay()
    ensures Analysed(ShadowedCall()) && IncomingOnly(ShadowedCall(), Range(18, 19), 1)
  {
    var src := ShadowedCall();
    ShadowedCallIsAnalysed();
    ShadowedCallReaches();
    FunctionsAreSound(src);
    CohortsPartition(src.tree, 2, 2);
    ReachesIsRead(src, Range(18, 19), 2);
    DirectionsAre(src, Range(18, 19), Caller(src.tree, Functions(src), Range(18, 19)), 1);
  }

  // --- A name bound to something else first ----------------------------------------

  /** The file `f <- 1; f <- function() 2; f()`, whose call resolves to the first `f` and reaches both. */
  function ReboundCall(): Source {
    var file := Scope(File, None, Range(0, 30), [0, 1]);
    var body := Scope(ScopeKind.Function, Some(0), Range(13, 25), []);
    Source(Tree([file, body], [Binding("f", Local, 0, Range(0, 1), None), Binding("f", Local, 0, Range(8, 9), None)]),
           [Ident("f", Range(27, 28), 0, false)],
           [Assign(Range(8, 9), Range(8, 25), Range(13, 25))],
           [Range(27, 28)], true)
  }

  lemma ReboundCallIsPlain()
    ensures Built(ReboundCall())
  {
    FlatIsWellFormed(ReboundCall().tree);
    FlatNests(ReboundCall().tree);
    SoleCallIsPlaced(ReboundCall(), Range(27, 28));
  }

  lemma ReboundCallDefs()
    ensures DefsBelow(ReboundCall(), 2) == [FnDef(["f"], 1, Range(8, 9), Range(8, 25), Range(13, 25))]
  {
    var src := ReboundCall();
    assert src.assigns[..0] == [];
    assert TargetOf(src.assigns, Range(0, 1)) == None;
    assert Defines(src, 1) == Some(src.assigns[0]);
    assert DefsBelow(src, 0) == [];
    assert DefsBelow(src, 1) == [];
  }

  lemma ReboundCallReaches()
    ensures var src := ReboundCall();
      && Valid(src) && CalleeBinding(src, Range(27, 28)) == Some(0) && 1 in Reaches(src, Range(27, 28))
  {
    var src := ReboundCall();
    var t, ident := src.tree, src.idents[0];
    ReboundCallIsPlain();
    assert IdentAt(src.idents, Range(27, 28)) == Some(0);
    FirstNamedAt(t, [0, 1], "f", 0);
    assert Key("f") == "f";
    HitsAre(t, ident, true, NamedIn(t, 0, "f"));
    assert 1 in [0, 1] && Hit(t, ident, true, 1);
  }

  /** The call is incoming to `f` from the script, and the script calls nothing. */
  lemma ReboundCallIsListedOneWay()
    ensures Analysed(ReboundCall()) && IncomingOnly(ReboundCall(), Range(27, 28), 0)
  {
    var src := ReboundCall();
    ReboundCallIsPlain();
    ReboundCallDefs();
    TopLevelIsFindable(src, 0);
    ReboundCallReaches();
    FunctionsAreSound(src);
    CohortsPartition(src.tree, 1, 1);
    ReachesIsRead(src, Range(27, 28), 1);
    DirectionsAre(src, Range(27, 28), Caller(src.tree, Functions(src), Range(27, 28)), 0);
  }

  // --- A function bound inside an anonymous one --------------------------------------

  /**
   * The file `lapply(xs, function(x) { h <- function() 1; h() })`. The anonymous
   * function adds nothing to the path of `h`, which is the bare name then, and no
   * top-level variable has that name.
   */
  function AnonymousCall(): Source {
    var file := Scope(File, None, Range(0, 50), []);
    var body := Scope(ScopeKind.Function, Some(0), Range(11, 49), [0, 1]);
    var inner := Scope(ScopeKind.Function, Some(1), Range(30, 42), []);
    Source(Tree([file, body, inner],
                [Binding("x", Param, 1, Range(20, 21), None), Binding("h", Local, 1, Range(25, 26), None)]),
           [Ident("lapply", Range(0, 6), 0, false), Ident("xs", Range(7, 9), 0, false),
            Ident("h", Range(44, 45), 1, false)],
           [Assign(Range(25, 26), Range(25, 42), Range(30, 42))],
           [Range(0, 6), Range(44, 45)], true)
  }

  lemma AnonymousCallIsWellFormed()
    ensures WellFormed(AnonymousCall().tree)
  {
    var t := AnonymousCall().tree;
    assert t.scopes[1].bindings[0] == 0 && t.scopes[1].bindings[1] == 1;
  }

  lemma AnonymousCallIsNested()
    ensures WellFormed(AnonymousCall().tree) && Nested(AnonymousCall().tree)
  {
    var t := AnonymousCall().tree;
    AnonymousCallIsWellFormed();
    assert Encloses(t, 0, 0) && Encloses(t, 1, 1);
    assert Encloses(t, 0, 1) && Encloses(t, 1, 2);
    assert Encloses(t, 0, 2);
  }

  lemma AnonymousCallIsPlaced()
    ensures Valid(AnonymousCall()) && CallsPlaced(AnonymousCall())
  {
    AnonymousCallIsWellFormed();
    AnonymousCallIsHeld();
    CallIsHeld(AnonymousCall().tree, Range(0, 6));
    CallIsHeld(AnonymousCall().tree, Range(44, 45));
  }

  lemma AnonymousCallIsHeld()
    ensures IsHeld(AnonymousCall().tree, Range(0, 6)) && IsHeld(AnonymousCall().tree, Range(44, 45))
  {
  }

  lemma AnonymousCallIsPlain()
    ensures Built(AnonymousCall())
  {
    AnonymousCallIsNested();
    AnonymousCallIsPlaced();
  }

  lemma AnonymousCallDefs()
    ensures DefsBelow(AnonymousCall(), 2) == [FnDef(["h"], 1, Range(25, 26), Range(25, 42), Range(30, 42))]
  {
    var src := AnonymousCall();
    assert DefsBelow(src, 0) == [];
    assert DefsBelow(src, 1) == [];
    assert Defines(src, 1) == Some(src.assigns[0]);
  }

  lemma AnonymousCallHasOneDef()
    ensures var src := AnonymousCall();
      && Valid(src) && Owned(Functions(src)) && |Functions(src).defs| == 1
      && Functions(src).defs[0].binding == 1 && Functions(src).defs[0].literal == Range(30, 42)
  {
    AnonymousCallIsPlaced();
    AnonymousCallDefs();
    FunctionsAreSound(AnonymousCall());
  }

  /** Nobody owns the anonymous function, so it leaves no trace in the path. */
  lemma AnonymousCallPath()
    ensures var src := AnonymousCall();
      && Valid(src) && |Functions(src).defs| == 1
      && Functions(src).defs[0].binding == 1 && Functions(src).defs[0].path == ["h"]
  {
    var src := AnonymousCall();
    AnonymousCallHasOneDef();
    OwnersOpen(src);
    assert src.tree.scopes[1].range != Range(30, 42);
    assert 1 !in Functions(src).owners;
    AnonymousPathIsBare(src, 0, 1);
  }

  lemma AnonymousCallCallee()
    ensures Valid(AnonymousCall()) && CalleeBinding(AnonymousCall(), Range(44, 45)) == Some(1)
  {
    AnonymousCallIsWellFormed();
    AnonymousCallIdent();
    AnonymousCallResolves();
  }

  lemma AnonymousCallIdent()
    ensures IdentAt(AnonymousCall().idents, Range(44, 45)) == Some(2)
  {
    var idents := AnonymousCall().idents;
    assert idents[2].range == Range(44, 45);
  }

  lemma AnonymousCallResolves()
    ensures WellFormed(AnonymousCall().tree) && Resolve(AnonymousCall().tree, 1, Key("h")) == Some(1)
  {
    var t := AnonymousCall().tree;
    AnonymousCallIsWellFormed();
    assert Key("h") == "h" && Key("x") == "x" && "h"[0] != "x"[0];
    FirstNamedAt(t, [0, 1], "h", 1);
  }

  /** The call of a function whose bare name stands for nothing is listed by the outgoing side alone. */
  lemma UnaddressedIsOutgoingOnly(src: Source, call: Range, k: nat, name: string)
    requires Analysed(src) && call in src.calls && k < |Functions(src).defs|
    requires CalleeBinding(src, call) == Some(Functions(src).defs[k].binding)
    requires Functions(src).defs[k].path == [name] && FileScopeBinding(src.tree, name, 0) == None
    ensures OutgoingOnly(src, call, k)
  {
    CallersList(src, call);
    DefIsFoundByBinding(src, k);
    FunctionsAreSound(src);
    DirectionsByPath(src, call, Caller(src.tree, Functions(src), call), [name]);
  }

  /** The call of `h` is listed under the script, and nothing is incoming to `h`. */
  lemma AnonymousCallIsListedOneWay()
    ensures Analysed(AnonymousCall()) && OutgoingOnly(AnonymousCall(), Range(44, 45), 0)
  {
    AnonymousCallIsPlain();
    AnonymousCallPath();
    AnonymousCallCallee();
    NoTopLevelName(AnonymousCall().tree);
    UnaddressedIsOutgoingOnly(AnonymousCall(), Range(44, 45), 0, "h");
  }

  lemma NoTopLevelName(t: Tree)
    requires WellFormed(t) && forall b :: 0 <= b < |t.bindings| ==> !AtFileScope(t, b)
    ensures forall name :: FileScopeBinding(t, name, 0) == None
  {
  }

  // --- Two functions with one name ----------------------------------------------------

  /**
   * The file `g <- function() 1; g <- function() f(); f <- function() 2`. The two
   * `g` are one item, whose outgoing calls are those of the first.
   */
  function HiddenCall(): Source {
    var file := Scope(File, None, Range(0, 57), [0, 1, 2]);
    var first := Scope(ScopeKind.Function, Some(0), Range(5, 17), []);
    var second := Scope(ScopeKind.Function, Some(0), Range(24, 38), []);
    var callee := Scope(ScopeKind.Function, Some(0), Range(45, 57), []);
    var bindings := [Binding("g", Local, 0, Range(0, 1), None),
                     Binding("g", Local, 0, Range(19, 20), None),
                     Binding("f", Local, 0, Range(40, 41), None)];
    Source(Tree([file, first, second, callee], bindings),
           [Ident("f", Range(35, 36), 2, false)],
           [Assign(Range(0, 1), Range(0, 17), Range(5, 17)),
            Assign(Range(19, 20), Range(19, 38), Range(24, 38)),
            Assign(Range(40, 41), Range(40, 57), Range(45, 57))],
           [Range(35, 36)], true)
  }

  lemma HiddenCallIsNested()
    ensures WellFormed(HiddenCall().tree) && Nested(HiddenCall().tree)
  {
    FlatIsWellFormed(HiddenCall().tree);
    FlatNests(HiddenCall().tree);
  }

  lemma HiddenCallIsHeld()
    ensures IsHeld(HiddenCall().tree, Range(35, 36))
  {
  }

  lemma HiddenCallIsPlain()
    ensures Built(HiddenCall())
  {
    HiddenCallIsNested();
    HiddenCallIsHeld();
    SoleCallIsPlaced(HiddenCall(), Range(35, 36));
  }

  lemma HiddenCallTargets()
    ensures var src := HiddenCall();
      && Defines(src, 0) == Some(src.assigns[0])
      && Defines(src, 1) == Some(src.assigns[1]) && Defines(src, 2) == Some(src.assigns[2])
  {
    var src := HiddenCall();
    var a := src.assigns;
    assert a[..2] == [a[0], a[1]] && a[..2][..1] == [a[0]];
    TargetsFromTheEnd(a, Range(0, 1));
    TargetsFromTheEnd(a, Range(19, 20));
    TargetsFromTheEnd(a, Range(40, 41));
  }

  lemma TargetsFromTheEnd(a: seq<Assign>, r: Range)
    requires |a| == 3
    ensures TargetOf(a, r)
         == if a[2].target == r then Some(a[2])
            else if a[1].target == r then Some(a[1])
            else if a[0].target == r then Some(a[0]) else None
  {
    assert a[..2][1] == a[1] && a[..2][..1] == [a[0]];
    assert [a[0]][..0] == [];
    assert TargetOf([a[0]], r) == if a[0].target == r then Some(a[0]) else None;
    assert TargetOf(a[..2], r) == if a[1].target == r then Some(a[1]) else TargetOf([a[0]], r);
  }

  lemma HiddenCallDefs()
    ensures DefsBelow(HiddenCall(), 3)
         == [FnDef(["g"], 0, Range(0, 1), Range(0, 17), Range(5, 17)),
             FnDef(["g"], 1, Range(19, 20), Range(19, 38), Range(24, 38)),
             FnDef(["f"], 2, Range(40, 41), Range(40, 57), Range(45, 57))]
  {
    var src := HiddenCall();
    HiddenCallTargets();
    assert DefsBelow(src, 0) == [];
    assert DefsBelow(src, 1) == [FnDef(["g"], 0, Range(0, 1), Range(0, 17), Range(5, 17))];
    assert DefsBelow(src, 2) == DefsBelow(src, 1) + [FnDef(["g"], 1, Range(19, 20), Range(19, 38), Range(24, 38))];
  }

  lemma HiddenCallPaths()
    ensures var src := HiddenCall();
      && Valid(src) && |Functions(src).defs| == 3
      && Functions(src).defs[0].path == ["g"] && Functions(src).defs[1].path == ["g"]
      && Functions(src).defs[2].path == ["f"] && Functions(src).defs[2].binding == 2
  {
    var src := HiddenCall();
    HiddenCallIsPlain();
    HiddenCallDefs();
    TopLevelIsFindable(src, 0);
    TopLevelIsFindable(src, 1);
    TopLevelIsFindable(src, 2);
  }

  /** The second definition owns the scope of the call. */
  lemma HiddenCallOwner()
    ensures Valid(HiddenCall()) && Enclosing(HiddenCall().tree, Functions(HiddenCall()).owners, Range(35, 36)) == Some(1)
  {
    var src := HiddenCall();
    HiddenCallIsPlain();
    HiddenCallDefs();
    HiddenCallOwners();
    assert Holds(src.tree, 2, 35) && !Holds(src.tree, 1, 35) && !Holds(src.tree, 3, 35);
    assert Length(src.tree, 2) < Length(src.tree, 0);
    assert Innermost(src.tree, 35) == 2;
  }

  lemma HiddenCallOwners()
    ensures Valid(HiddenCall())
    ensures 2 in Functions(HiddenCall()).owners && Functions(HiddenCall()).owners[2] == 1
  {
    var src := HiddenCall();
    HiddenCallIsPlain();
    HiddenCallDefs();
    var t, defs := src.tree, DefsBelow(src, 3);
    SoleScopeOf(t, Range(24, 38), 2);
    assert Opens(t, defs)[1] == Some(2);
    assert Some(2) in Opens(t, defs);
    OwnerIsFirstToOpen(Opens(t, defs), 2);
    assert Opens(t, defs)[0] != Some(2) && Opens(t, defs)[2] != Some(2);
  }

  /** The one function scope with a range is the scope of that literal. */
  lemma SoleScopeOf(t: Tree, literal: Range, s: ScopeId)
    requires s < |t.scopes| && t.scopes[s].kind == ScopeKind.Function && t.scopes[s].range == literal
    requires forall o :: 0 <= o < |t.scopes| && t.scopes[o].range == literal ==> o == s
    ensures ScopeOf(t, literal) == Some(s)
  {
    ScopeIsBelow(t, literal, s, |t.scopes|);
  }

  lemma {:induction false} ScopeIsBelow(t: Tree, literal: Range, s: ScopeId, n: nat)
    requires s < n <= |t.scopes| && t.scopes[s].kind == ScopeKind.Function && t.scopes[s].range == literal
    ensures ScopeBelow(t, literal, n).Some?
    decreases n
  {
    if s < n - 1 {
      ScopeIsBelow(t, literal, s, n - 1);
    }
  }

  lemma HiddenCallReaches()
    ensures Valid(HiddenCall()) && 2 in Reaches(HiddenCall(), Range(35, 36))
  {
    var src := HiddenCall();
    var t, ident := src.tree, src.idents[0];
    HiddenCallIsPlain();
    assert IdentAt(src.idents, Range(35, 36)) == Some(0);
    assert Key("f") == "f";
    assert Named(t, [], "f") == [];
    assert t.scopes[0].bindings[2] == 2;
    Meets(t, ident, 0, "f", 2);
    ReachesOutside(t, ident, 2);
  }

  lemma HiddenCallIsInASecond()
    ensures Valid(HiddenCall()) && !CallerLists(HiddenCall(), Range(35, 36))
  {
    HiddenCallOwner();
    HiddenCallPaths();
    LaterIsNotFirst(Functions(HiddenCall()).defs);
  }

  lemma LaterIsNotFirst(defs: seq<FnDef>)
    requires |defs| > 1 && defs[0].path == defs[1].path
    ensures ByPath(defs, defs[1].path) == Some(0)
  {
  }

  lemma HiddenCallStandsFor()
    ensures var src := HiddenCall();
      && Valid(src) && Bound(src.tree, Functions(src))
      && VariableOf(src.tree, Functions(src), ["f"]) == Some(2)
  {
    var src := HiddenCall();
    HiddenCallIsPlain();
    FunctionsAreSound(src);
    assert "f"[0] != "g"[0];
    assert FileScopeBinding(src.tree, "f", 2) == Some(2);
    assert FileScopeBinding(src.tree, "f", 1) == Some(2);
  }

  /** The call is incoming to `f` from `g`, and `g` calls nothing. */
  lemma HiddenCallIsListedOneWay()
    ensures Built(HiddenCall()) && !CallerLists(HiddenCall(), Range(35, 36))
    ensures IncomingOnly(HiddenCall(), Range(35, 36), 2)
  {
    var src, call := HiddenCall(), Range(35, 36);
    HiddenCallIsPlain();
    HiddenCallPaths();
    HiddenCallIsInASecond();
    HiddenCallStandsFor();
    HiddenCallReaches();
    FunctionsAreSound(src);
    CohortsPartition(src.tree, 2, 2);
    ReachesIsRead(src, call, 2);
    assert ReachesVariable(src, call, 2);
    DirectionsByPath(src, call, Caller(src.tree, Functions(src), call), ["f"]);
  }

  // --- A file with parse errors ----------------------------------------------------------

  /**
   * The file `f <- function() 1; f(); )`, whose last token does not parse, so that
   * the index leaves the file out; and the same file as if it did.
   */
  function LateCall(indexed: bool): Source {
    var file := Scope(File, None, Range(0, 25), [0]);
    var body := Scope(ScopeKind.Function, Some(0), Range(5, 17), []);
    Source(Tree([file, body], [Binding("f", Local, 0, Range(0, 1), None)]),
           [Ident("f", Range(19, 20), 0, false)],
           [Assign(Range(0, 1), Range(0, 17), Range(5, 17))],
           [Range(19, 20)], indexed)
  }

  lemma LateCallIsPlain(indexed: bool)
    ensures Built(LateCall(indexed))
  {
    FlatIsWellFormed(LateCall(indexed).tree);
    FlatNests(LateCall(indexed).tree);
    SoleCallIsPlaced(LateCall(indexed), Range(19, 20));
  }

  lemma LateCallDefs(indexed: bool)
    ensures DefsBelow(LateCall(indexed), 1) == [FnDef(["f"], 0, Range(0, 1), Range(0, 17), Range(5, 17))]
  {
    var src := LateCall(indexed);
    assert DefsBelow(src, 0) == [];
    assert src.assigns[|src.assigns| - 1] == src.assigns[0];
    assert Defines(src, 0) == Some(src.assigns[0]);
  }

  lemma LateCallHasOneDef(indexed: bool)
    ensures var src := LateCall(indexed);
      && Analysed(src) && |Functions(src).defs| == 1 && Functions(src).defs[0].binding == 0
      && FindableAt(src, 0) && Functions(src).defs[0].path == ["f"]
  {
    LateCallIsPlain(indexed);
    LateCallDefs(indexed);
    TopLevelIsFindable(LateCall(indexed), 0);
  }

  lemma LateCallReaches(indexed: bool)
    ensures var src := LateCall(indexed);
      Valid(src) && CalleeBinding(src, Range(19, 20)) == Some(0) && ReachesVariable(src, Range(19, 20), 0)
  {
    var src := LateCall(indexed);
    var t, ident := src.tree, src.idents[0];
    LateCallIsPlain(indexed);
    assert IdentAt(src.idents, Range(19, 20)) == Some(0);
    FirstNamedAt(t, [0], "f", 0);
    assert Key("f") == "f";
    HitsAre(t, ident, true, NamedIn(t, 0, "f"));
    assert 0 in [0] && Hit(t, ident, true, 0);
    ReachesIsRead(src, Range(19, 20), 0);
    CohortsPartition(t, 0, 0);
  }

  /** A call that its function and its caller would agree on, if only the file were in the index. */
  lemma LateCallAgreesIffIndexed(indexed: bool)
    ensures Valid(LateCall(indexed)) && (Agree(LateCall(indexed), Range(19, 20)) <==> indexed)
    ensures !indexed ==> CalleeUnindexed(LateCall(indexed), Range(19, 20))
  {
    var src, call := LateCall(indexed), Range(19, 20);
    LateCallHasOneDef(indexed);
    LateCallReaches(indexed);
    CallersList(src, call);
    SoleFindableAgreesIff(src, call);
  }

  lemma SoleAgreesIff(src: Source, call: Range)
    requires Valid(src) && call in src.calls && |Functions(src).defs| == 1
    ensures Agree(src, call) <==> ListedAsFound(src, call, 0)
  {
    AgreeIff(src, call);
    if k: nat :| k < |Functions(src).defs| && !ListedAsFound(src, call, k) {
      assert k == 0;
    }
  }

  lemma CallsOwnDef(src: Source, call: Range, k: nat)
    requires Valid(src) && DistinctPaths(Functions(src)) && k < |Functions(src).defs|
    requires CalleeBinding(src, call) == Some(Functions(src).defs[k].binding)
    ensures CallsPathOf(src, call, k) && CalleeDef(src, call) == Some(k)
  {
    DefIsFoundByBinding(src, k);
    CalleeIs(src, Functions(src), call, k);
  }

  /** A call that resolves to the one function of a file and reaches it is agreed on exactly when the path is searched. */
  lemma SoleFindableAgreesIff(src: Source, call: Range)
    requires Analysed(src) && call in src.calls && CallerLists(src, call)
    requires |Functions(src).defs| == 1 && FindableAt(src, 0)
    requires CalleeBinding(src, call) == Some(Functions(src).defs[0].binding)
    requires ReachesVariable(src, call, Functions(src).defs[0].binding)
    ensures Agree(src, call) <==> IsSearched(src, Functions(src).defs[0].path)
    ensures CalleeUnindexed(src, call) <==> !IsSearched(src, Functions(src).defs[0].path)
  {
    CallsOwnDef(src, call, 0);
    FindableIsFound(src, 0);
    OwnPathIsReached(src, call, 0);
    SoleAgreesIff(src, call);
  }

  // --- Reads that share a span -----------------------------------------------------------

  /**
   * The file `print.foo <- function(x, y) NextMethod()`. The call stands for a
   * read of each formal, and these reads have the span of the whole call.
   */
  function MethodCall(): Source {
    var file := Scope(File, None, Range(0, 40), [2]);
    var body := Scope(ScopeKind.Function, Some(0), Range(13, 40), [0, 1]);
    var bindings := [Binding("x", Param, 1, Range(22, 23), None),
                     Binding("y", Param, 1, Range(25, 26), None),
                     Binding("print.foo", Local, 0, Range(0, 9), None)];
    Source(Tree([file, body], bindings),
           [Ident("x", Range(28, 40), 1, true), Ident("y", Range(28, 40), 1, true),
            Ident("NextMethod", Range(28, 38), 1, false)],
           [Assign(Range(0, 9), Range(0, 40), Range(13, 40))],
           [Range(28, 38)], true)
  }

  lemma MethodCallIsWellFormed()
    ensures WellFormed(MethodCall().tree)
  {
    var t := MethodCall().tree;
    assert t.scopes[0].bindings[0] == 2 && t.scopes[1].bindings[0] == 0 && t.scopes[1].bindings[1] == 1;
  }

  lemma MethodCallIdent()
    ensures IdentAt(MethodCall().idents, Range(28, 38)) == Some(2) && ReadOnce(MethodCall(), Range(28, 38))
  {
    var idents := MethodCall().idents;
    assert idents[2].range == Range(28, 38);
  }

  /** Nothing in the file has the name of a read. */
  predicate IsUnbound(src: Source, i: nat) {
    i < |src.idents| && forall b: nat :: b < |src.tree.bindings| ==> Key(src.tree.bindings[b].name) != Key(src.idents[i].name)
  }

  lemma MethodCallIsUnbound()
    ensures IsUnbound(MethodCall(), 2)
  {
    assert Key("NextMethod") == "NextMethod" && Key("print.foo") == "print.foo" && Key("x") == "x" && Key("y") == "y";
    assert "NextMethod"[0] != "print.foo"[0] && "NextMethod"[0] != "x"[0] && "NextMethod"[0] != "y"[0];
  }

  lemma UnboundReachesNothing(src: Source, call: Range, i: nat, c: BindingId)
    requires Valid(src) && ReadOnce(src, call) && IdentAt(src.idents, call) == Some(i) && IsUnbound(src, i)
    ensures CalleeBinding(src, call) == None && !ReadReaches(src, call, c)
  {
    ReadAtCall(src, call, c);
    UnboundNameReachesFrom(src.tree, src.idents[i], src.idents[i].scope, true);
  }

  lemma MethodCallReachesNothing(c: BindingId)
    ensures Valid(MethodCall()) && CalleeBinding(MethodCall(), Range(28, 38)) == None
    ensures !ReadReaches(MethodCall(), Range(28, 38), c)
  {
    MethodCallIsWellFormed();
    MethodCallIsUnbound();
    MethodCallIdent();
    UnboundReachesNothing(MethodCall(), Range(28, 38), 2, c);
  }

  lemma {:induction false} UnboundNameReachesFrom(t: Tree, ident: Ident, scope: ScopeId, inFrame: bool)
    requires WellFormed(t) && scope < |t.scopes|
    requires forall b: nat :: b < |t.bindings| ==> Key(t.bindings[b].name) != Key(ident.name)
    ensures Resolve(t, scope, Key(ident.name)) == None && ReachedFrom(t, ident, scope, inFrame) == []
    decreases scope
  {
    var named := NamedIn(t, scope, Key(ident.name));
    FirstIsMember(named);
    FirstOfNamed(t, t.scopes[scope].bindings, Key(ident.name));
    if t.scopes[scope].parent.Some? {
      UnboundNameReachesFrom(t, ident, t.scopes[scope].parent.value, inFrame && !EndsFrame(t.scopes[scope]));
    }
  }

  /** Such a file is covered like any other: nobody lists the call from either side. */
  lemma MethodCallAgrees()
    ensures var src := MethodCall();
      && Valid(src) && src.idents[0] != src.idents[1] && src.idents[0].range == src.idents[1].range
      && Agree(src, Range(28, 38))
  {
    var src := MethodCall();
    MethodCallReachesNothing(0);
    assert "x"[0] != "y"[0];
    forall c ensures !ReadReaches(src, Range(28, 38), c) {
      MethodCallReachesNothing(c);
    }
    NothingListed(src, Range(28, 38));
  }

  lemma NothingListed(src: Source, call: Range)
    requires Valid(src) && call in src.calls && CalleeBinding(src, call) == None
    requires forall c :: !ReadReaches(src, call, c)
    ensures Agree(src, call)
  {
    AgreeIff(src, call);
  }

  // --- One file for each way to disagree ------------------------------------------------

  lemma OutgoingOnlyIs(src: Source, call: Range, k: nat)
    requires Valid(src) && call in src.calls && OutgoingOnly(src, call, k)
    ensures CallerLists(src, call) && CallsPathOf(src, call, k) && !FindsPathOf(src, call, k)
  {
    DirectionsByPath(src, call, Caller(src.tree, Functions(src), call), Functions(src).defs[k].path);
  }

  lemma IncomingOnlyIs(src: Source, call: Range, k: nat)
    requires Valid(src) && call in src.calls && IncomingOnly(src, call, k)
    ensures k < |Functions(src).defs|
    ensures !(CallerLists(src, call) && CallsPathOf(src, call, k)) && FindsPathOf(src, call, k)
  {
    DirectionsByPath(src, call, Caller(src.tree, Functions(src), call), Functions(src).defs[k].path);
  }

  lemma FoundMeans(src: Source, call: Range, k: nat)
    requires Valid(src) && k < |Functions(src).defs|
    requires !(CallerLists(src, call) && CallsPathOf(src, call, k)) && FindsPathOf(src, call, k)
    ensures if CallerLists(src, call) then ReachesAnother(src, call) else CallerHidden(src, call)
  {
  }

  /** A sole definition that a call resolves to and that is not found is missed for one of three reasons. */
  lemma SoleMissMeans(src: Source, call: Range)
    requires Valid(src) && |Functions(src).defs| == 1
    requires CallsPathOf(src, call, 0) && !FindsPathOf(src, call, 0)
    ensures if !IsSearched(src, Functions(src).defs[0].path) then CalleeUnindexed(src, call)
            else if StandsForItself(src, 0) then CalleeUnseen(src, call)
            else CalleeMisaddressed(src, call)
  {
    OwnPathIsReached(src, call, 0);
    assert CalleeDef(src, call).Some?;
    assert CalleeDef(src, call).value == 0;
  }

  lemma EarlyCallStandsForItself()
    ensures Valid(EarlyCall()) && |Functions(EarlyCall()).defs| == 1 && StandsForItself(EarlyCall(), 0)
  {
    EarlyCallIsListedOneWay();
    EarlyCallDefs();
    TopLevelIsFindable(EarlyCall(), 0);
    FindableIsFound(EarlyCall(), 0);
  }

  lemma EarlyCalleeIsUnseen()
    ensures Built(EarlyCall()) && CalleeUnseen(EarlyCall(), Range(0, 1))
  {
    EarlyCallIsListedOneWay();
    EarlyCallStandsForItself();
    OutgoingOnlyIs(EarlyCall(), Range(0, 1), 0);
    SoleMissMeans(EarlyCall(), Range(0, 1));
  }

  lemma BareNameStandsForNothing(src: Source, k: nat, name: string)
    requires Valid(src) && k < |Functions(src).defs| && Functions(src).defs[k].path == [name]
    requires FileScopeBinding(src.tree, name, 0) == None
    ensures !StandsForItself(src, k)
  {
  }

  lemma AnonymousCallStandsForNothing()
    ensures Valid(AnonymousCall()) && |Functions(AnonymousCall()).defs| == 1 && !StandsForItself(AnonymousCall(), 0)
  {
    AnonymousCallPath();
    NoTopLevelName(AnonymousCall().tree);
    BareNameStandsForNothing(AnonymousCall(), 0, "h");
  }

  lemma AnonymousCalleeIsMisaddressed()
    ensures Built(AnonymousCall()) && CalleeMisaddressed(AnonymousCall(), Range(44, 45))
  {
    AnonymousCallIsListedOneWay();
    AnonymousCallStandsForNothing();
    OutgoingOnlyIs(AnonymousCall(), Range(44, 45), 0);
    SoleMissMeans(AnonymousCall(), Range(44, 45));
  }

  lemma OthersAreReached()
    ensures Built(ShadowedCall()) && ReachesAnother(ShadowedCall(), Range(18, 19))
    ensures Built(ReboundCall()) && ReachesAnother(ReboundCall(), Range(27, 28))
  {
    ShadowedCallIsListedOneWay();
    CallersList(ShadowedCall(), Range(18, 19));
    IncomingOnlyIs(ShadowedCall(), Range(18, 19), 1);
    FoundMeans(ShadowedCall(), Range(18, 19), 1);
    ReboundCallIsListedOneWay();
    CallersList(ReboundCall(), Range(27, 28));
    IncomingOnlyIs(ReboundCall(), Range(27, 28), 0);
    FoundMeans(ReboundCall(), Range(27, 28), 0);
  }

  /** None of the five ways to disagree is idle. */
  lemma EachWayOccurs()
    ensures Valid(LateCall(false)) && CalleeUnindexed(LateCall(false), Range(19, 20))
    ensures Built(EarlyCall()) && CalleeUnseen(EarlyCall(), Range(0, 1))
    ensures Built(AnonymousCall()) && CalleeMisaddressed(AnonymousCall(), Range(44, 45))
    ensures Built(ShadowedCall()) && ReachesAnother(ShadowedCall(), Range(18, 19))
    ensures Built(HiddenCall()) && CallerHidden(HiddenCall(), Range(35, 36))
  {
    LateCallAgreesIffIndexed(false);
    EarlyCalleeIsUnseen();
    AnonymousCalleeIsMisaddressed();
    OthersAreReached();
    HiddenCallIsListedOneWay();
    IncomingOnlyIs(HiddenCall(), Range(35, 36), 2);
    FoundMeans(HiddenCall(), Range(35, 36), 2);
  }

  // --- An anonymous function inside a named one ----------------------------------------

  /** The file `f <- function(xs) lapply(xs, function(x) g(x))`, which calls `g` from a function without a name. */
  function MappedCall(): Source {
    var file := Scope(File, None, Range(0, 46), [2]);
    var body := Scope(ScopeKind.Function, Some(0), Range(5, 46), [0]);
    var mapped := Scope(ScopeKind.Function, Some(1), Range(29, 45), [1]);
    Source(Tree([file, body, mapped],
                [Binding("xs", Param, 1, Range(14, 16), None), Binding("x", Param, 2, Range(38, 39), None),
                 Binding("f", Local, 0, Range(0, 1), None)]),
           [Ident("lapply", Range(18, 24), 1, false), Ident("xs", Range(25, 27), 1, false),
            Ident("g", Range(41, 42), 2, false), Ident("x", Range(43, 44), 2, false)],
           [Assign(Range(0, 1), Range(0, 46), Range(5, 46))],
           [Range(18, 24), Range(41, 42)], true)
  }

  lemma MappedCallIsValid()
    ensures Valid(MappedCall())
  {
    var t := MappedCall().tree;
    assert t.scopes[0].bindings[0] == 2 && t.scopes[1].bindings[0] == 0 && t.scopes[2].bindings[0] == 1;
  }

  lemma MappedCallDefs()
    ensures DefsBelow(MappedCall(), 3) == [FnDef(["f"], 2, Range(0, 1), Range(0, 46), Range(5, 46))]
  {
    var src := MappedCall();
    assert DefsBelow(src, 0) == [];
    assert DefsBelow(src, 1) == [];
    assert DefsBelow(src, 2) == [];
    assert Defines(src, 2) == Some(src.assigns[0]);
  }

  lemma MappedCallHasOneDef()
    ensures var src := MappedCall();
      && Valid(src) && Owned(Functions(src)) && |Functions(src).defs| == 1
      && Functions(src).defs[0].path == ["f"] && Functions(src).defs[0].literal == Range(5, 46)
  {
    var src := MappedCall();
    MappedCallIsValid();
    MappedCallDefs();
    FunctionsAreSound(src);
    DefsAreNamed(src, 0);
    TopLevelPath(src, 0);
  }

  lemma MappedCallOpens()
    ensures ScopeOf(MappedCall().tree, Range(5, 46)) == Some(1)
  {
    OpensLastOfSpan(MappedCall().tree, Range(5, 46), 3, 1);
  }

  lemma MappedCallIsInside()
    ensures var t := MappedCall().tree; WellFormed(t) && Innermost(t, 41) == 2 && Encloses(t, 1, 2)
  {
    var t := MappedCall().tree;
    MappedCallIsValid();
    assert Holds(t, 2, 41);
    assert Encloses(t, 1, 1);
  }

  /** The call of `g` belongs to `f`, and not to the script. */
  lemma MappedCallBelongsToFunction()
    ensures var src := MappedCall();
      && Valid(src) && Range(41, 42) in src.calls && Owned(Functions(src))
      && Caller(src.tree, Functions(src), Range(41, 42)) == FunctionItem(["f"])
      && Range(41, 42) in CallsOf(src, Functions(src), FunctionItem(["f"]))
      && Range(41, 42) !in CallsOf(src, Functions(src), ScriptScope)
  {
    var src, call := MappedCall(), Range(41, 42);
    MappedCallHasOneDef();
    MappedCallOpens();
    MappedCallIsInside();
    assert call == src.calls[1];
    ScriptCallIff(src, call);
    assert IsInside(src, 0, 2);
    EachCallHasOneCaller(src, call, FunctionItem(["f"]));
    EachCallHasOneCaller(src, call, ScriptScope);
  }
}
