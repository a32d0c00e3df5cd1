/**
 * The scope tree of `src/semantic.rs`, grown as `src/semantic/builder.rs`
 * grows it, and the lookups over it.
 */
module Scopes {
  import opened Common

  type ScopeId = nat
  type BindingId = nat

  datatype ScopeKind = File | Function | Block | For

  datatype Scope = Scope(kind: ScopeKind, parent: Option<ScopeId>, range: Range, bindings: seq<BindingId>)

  datatype BindingKind = Local | Param | ForVar | Implicit

  datatype Binding = Binding(
    name: string, kind: BindingKind, scope: ScopeId, defRange: Range, loopRange: Option<Range>)

  /** An identifier read; a deferred one is a promise, evaluated at no particular point of its frame. */
  datatype Ident = Ident(name: string, range: Range, scope: ScopeId, deferred: bool)

  /** Scopes and bindings as values, so that what they mean can be stated without the object. */
  datatype Tree = Tree(scopes: seq<Scope>, bindings: seq<Binding>)

  /** A name without a surrounding pair of backticks. */
  function Key(name: string): string {
    if |name| > 1 && name[0] == '`' && name[|name| - 1] == '`' then name[1..|name| - 1] else name
  }

  /** A name and the same name in backticks mean one variable; only a surrounding pair is taken off. */
  lemma KeyDropsBackticks(name: string)
    ensures Key("`" + name + "`") == name
    ensures Key(name) != name ==> name == "`" + Key(name) + "`"
  {
    var quoted := "`" + name + "`";
    assert quoted[1..|quoted| - 1] == name;
    if Key(name) != name {
      assert name == [name[0]] + name[1..|name| - 1] + [name[|name| - 1]];
    }
  }

  /** Parents are opened before their children, and each scope lists the bindings declared in it. */
  ghost predicate WellFormed(t: Tree) {
    && |t.scopes| > 0
    && (forall s :: 0 <= s < |t.scopes| && t.scopes[s].parent.Some? ==> t.scopes[s].parent.value < s)
    && (forall s :: 0 <= s < |t.scopes| && t.scopes[s].parent.None? ==> s == 0)
    && (forall b :: 0 <= b < |t.bindings| ==> t.bindings[b].scope < |t.scopes|)
    && (forall s :: 0 <= s < |t.scopes| ==> Known(t, t.scopes[s].bindings))
    && (forall s, b :: 0 <= s < |t.scopes| && b in t.scopes[s].bindings ==> t.bindings[b].scope == s)
    && (forall b: nat :: b < |t.bindings| ==> b in t.scopes[t.bindings[b].scope].bindings)
  }

  predicate Known(t: Tree, ids: seq<BindingId>) {
    forall i :: 0 <= i < |ids| ==> ids[i] < |t.bindings|
  }

  /** The bindings among `ids` whose name means the same variable as `key`, in order. */
  function Named(t: Tree, ids: seq<BindingId>, key: string): seq<BindingId>
    requires Known(t, ids)
  {
    if |ids| == 0 then []
    else
      var last := ids[|ids| - 1];
      Named(t, ids[..|ids| - 1], key) + (if Key(t.bindings[last].name) == key then [last] else [])
  }

  lemma {:induction false} NamedAre(t: Tree, ids: seq<BindingId>, key: string)
    requires Known(t, ids)
    ensures Known(t, Named(t, ids, key))
    ensures forall b :: b in Named(t, ids, key) <==> b in ids && Key(t.bindings[b].name) == key
  {
    if |ids| > 0 {
      var init, last := ids[..|ids| - 1], ids[|ids| - 1];
      NamedAre(t, init, key);
      assert ids == init + [last];
    }
  }

  // --- The naive outward scan ----------------------------------------------------

  /** The first binding of `ids` that means `key`. */
  function FirstNamed(t: Tree, ids: seq<BindingId>, key: string): (found: Option<BindingId>)
    requires Known(t, ids)
    ensures found.Some? ==> found.value < |t.bindings|
  {
    if |ids| == 0 then None
    else if Key(t.bindings[ids[0]].name) == key then Some(ids[0])
    else FirstNamed(t, ids[1..], key)
  }

  /** Scan each enclosing scope's declarations in order, from the inside out. */
  function Resolve(t: Tree, scope: ScopeId, key: string): (found: Option<BindingId>)
    requires WellFormed(t) && scope < |t.scopes|
    ensures found.Some? ==> found.value < |t.bindings|
    decreases scope
  {
    match FirstNamed(t, t.scopes[scope].bindings, key)
    case Some(b) => Some(b)
    case None =>
      match t.scopes[scope].parent
      case Some(p) => Resolve(t, p, key)
      case None => None
  }

  lemma {:induction false} FirstOfNamed(t: Tree, ids: seq<BindingId>, key: string)
    requires Known(t, ids)
    ensures FirstNamed(t, ids, key)
         == if |Named(t, ids, key)| > 0 then Some(Named(t, ids, key)[0]) else None
  {
    if |ids| > 0 {
      var init, last := ids[..|ids| - 1], ids[|ids| - 1];
      FirstOfNamed(t, init, key);
      FirstNamedPrefix(t, init, last, key);
      assert init + [last] == ids;
      assert Named(t, ids, key) == Named(t, init, key) + (if Key(t.bindings[last].name) == key then [last] else []);
    }
  }

  lemma {:induction false} FirstNamedPrefix(t: Tree, ids: seq<BindingId>, last: BindingId, key: string)
    requires Known(t, ids) && last < |t.bindings|
    ensures FirstNamed(t, ids + [last], key)
         == if FirstNamed(t, ids, key).Some? then FirstNamed(t, ids, key)
            else if Key(t.bindings[last].name) == key then Some(last) else None
  {
    if |ids| > 0 {
      assert (ids + [last])[1..] == ids[1..] + [last];
      FirstNamedPrefix(t, ids[1..], last, key);
    }
  }

  // --- Enclosure -------------------------------------------------------------------

  /** `outer` is `inner` or one of the scopes around it. */
  predicate Encloses(t: Tree, outer: ScopeId, inner: ScopeId)
    requires WellFormed(t) && inner < |t.scopes|
    decreases inner
  {
    outer == inner
    || match t.scopes[inner].parent case Some(p) => Encloses(t, outer, p) case None => false
  }

  /**
   * Ranges follow the tree: a scope lies in its parent, and unrelated scopes
   * neither overlap nor touch.
   */
  ghost predicate Nested(t: Tree)
    requires WellFormed(t)
  {
    && Contained(t)
    && (forall a, b :: 0 <= a < b < |t.scopes| ==> Encloses(t, a, b) || Apart(t, a, b))
  }

  /** Every scope lies in its parent. */
  ghost predicate Contained(t: Tree)
    requires WellFormed(t)
  {
    forall s :: 0 <= s < |t.scopes| ==> InParent(t, s)
  }

  predicate InParent(t: Tree, s: ScopeId)
    requires WellFormed(t) && s < |t.scopes|
  {
    && t.scopes[s].range.Ordered()
    && match t.scopes[s].parent case Some(p) => t.scopes[p].range.Contains(t.scopes[s].range) case None => true
  }

  predicate Apart(t: Tree, a: ScopeId, b: ScopeId)
    requires a < |t.scopes| && b < |t.scopes|
  {
    t.scopes[a].range.end < t.scopes[b].range.start || t.scopes[b].range.end < t.scopes[a].range.start
  }

  predicate Holds(t: Tree, s: ScopeId, offset: nat)
    requires s < |t.scopes|
  {
    t.scopes[s].range.Touches(offset)
  }

  /** `s` holds the offset, and so does no scope that is not around `s`. */
  ghost predicate IsDeepest(t: Tree, s: ScopeId, offset: nat)
    requires WellFormed(t)
  {
    && s < |t.scopes| && Holds(t, s, offset)
    && forall o :: 0 <= o < |t.scopes| && Holds(t, o, offset) ==> Encloses(t, o, s)
  }

  function Length(t: Tree, s: ScopeId): int
    requires s < |t.scopes|
  {
    t.scopes[s].range.end - t.scopes[s].range.start
  }

  /** The answer of the linear search: the first of the shortest scopes holding the offset, or the file scope. */
  ghost predicate IsShortest(t: Tree, offset: nat, s: ScopeId) {
    if exists o :: 0 <= o < |t.scopes| && Holds(t, o, offset) then
      && s < |t.scopes| && Holds(t, s, offset)
      && forall o :: 0 <= o < |t.scopes| && Holds(t, o, offset) ==>
           Length(t, s) < Length(t, o) || (Length(t, s) == Length(t, o) && s <= o)
    else s == 0
  }

  /** The first of the shortest among the first `n` scopes that hold the offset. */
  function ShortestBelow(t: Tree, offset: nat, n: nat): (best: Option<ScopeId>)
    requires n <= |t.scopes|
    ensures best.None? ==> forall o :: 0 <= o < n ==> !Holds(t, o, offset)
    ensures best.Some? ==>
      && best.value < n && Holds(t, best.value, offset)
      && forall o :: 0 <= o < n && Holds(t, o, offset) ==>
           Length(t, best.value) < Length(t, o) || (Length(t, best.value) == Length(t, o) && best.value <= o)
  {
    if n == 0 then None
    else
      var best := ShortestBelow(t, offset, n - 1);
      if Holds(t, n - 1, offset) && (best.None? || Length(t, n - 1) < Length(t, best.value)) then Some(n - 1)
      else best
  }

  function Innermost(t: Tree, offset: nat): (s: ScopeId)
    requires |t.scopes| > 0
    ensures IsShortest(t, offset, s) && s < |t.scopes|
  {
    match ShortestBelow(t, offset, |t.scopes|) case Some(s) => s case None => 0
  }

  lemma {:induction false} OuterIsLonger(t: Tree, outer: ScopeId, inner: ScopeId)
    requires WellFormed(t) && Contained(t) && inner < |t.scopes| && Encloses(t, outer, inner)
    ensures outer <= inner
    ensures t.scopes[outer].range.Contains(t.scopes[inner].range)
    ensures Length(t, inner) <= Length(t, outer)
    decreases inner
  {
    if outer != inner {
      assert InParent(t, inner);
      OuterIsLonger(t, outer, t.scopes[inner].parent.value);
    }
  }

  /** The scopes holding an offset form a chain, whose innermost is the last one opened. */
  lemma LastHolderIsDeepest(t: Tree, offset: nat, s: ScopeId)
    requires WellFormed(t) && Nested(t) && s < |t.scopes| && Holds(t, s, offset)
    requires forall o :: s < o < |t.scopes| ==> !Holds(t, o, offset)
    ensures IsDeepest(t, s, offset)
  {
    forall o: nat | o < s && Holds(t, o, offset) ensures Encloses(t, o, s) {
      assert Encloses(t, o, s) || Apart(t, o, s);
    }
  }

  /**
   * The search finds the deepest scope exactly when that scope is strictly
   * shorter than the scope around it; on a tie the outer scope wins.
   */
  lemma ShortestIsDeepestIff(t: Tree, offset: nat, found: ScopeId, deepest: ScopeId)
    requires WellFormed(t) && Nested(t)
    requires IsShortest(t, offset, found) && IsDeepest(t, deepest, offset)
    ensures Encloses(t, found, deepest)
    ensures found == deepest <==>
      match t.scopes[deepest].parent
      case Some(p) =>
        var inner, outer := t.scopes[deepest].range, t.scopes[p].range;
        inner.end - inner.start < outer.end - outer.start
      case None => true
  {
    OuterIsLonger(t, found, deepest);
    match t.scopes[deepest].parent {
      case Some(p) =>
        assert Encloses(t, p, p);
        OuterIsLonger(t, p, deepest);
        if found != deepest {
          OuterIsLonger(t, found, p);
        }
      case None =>
    }
  }

  /** A file that is one function literal, `n` bytes long. */
  function LoneFunction(n: nat): Tree {
    Tree([Scope(File, None, Range(0, n), []), Scope(ScopeKind.Function, Some(0), Range(0, n), [])], [])
  }

  /** In such a file the search stays at the file scope, wherever it looks. */
  lemma LoneFunctionIsOverlooked(n: nat, offset: nat)
    requires offset <= n
    ensures var t := LoneFunction(n);
      WellFormed(t) && Nested(t) && Innermost(t, offset) == 0 && IsDeepest(t, 1, offset)
  {
    var t := LoneFunction(n);
    assert Encloses(t, 0, 0);
    assert Encloses(t, 0, 1) && Encloses(t, 1, 1);
    assert Holds(t, 0, offset) && Holds(t, 1, offset);
    assert Length(t, 0) == Length(t, 1);
  }

  /** A name resolves to the first binding of it in the nearest scope around that declares one. */
  lemma {:induction false} ResolveIff(t: Tree, scope: ScopeId, key: string, b: BindingId)
    requires WellFormed(t) && scope < |t.scopes|
    ensures Resolve(t, scope, key) == Some(b) <==>
      && b < |t.bindings| && Encloses(t, t.bindings[b].scope, scope)
      && FirstIn(t, t.scopes[t.bindings[b].scope].bindings, key, b)
      && forall c :: 0 <= c < |t.bindings| && Key(t.bindings[c].name) == key && Encloses(t, t.bindings[c].scope, scope)
           ==> t.bindings[c].scope <= t.bindings[b].scope
    decreases scope
  {
    FirstNamedIff(t, t.scopes[scope].bindings, key, b);
    forall c | 0 <= c < |t.bindings| && t.bindings[c].scope == scope ensures c in t.scopes[scope].bindings {
    }
    match FirstNamed(t, t.scopes[scope].bindings, key) {
      case Some(found) =>
        FirstNamedFinds(t, t.scopes[scope].bindings, key);
        assert Encloses(t, scope, scope);
        if b < |t.bindings| && Encloses(t, t.bindings[b].scope, scope) {
          EnclosingIsEarlier(t, t.bindings[b].scope, scope);
        }
        forall c | 0 <= c < |t.bindings| && Encloses(t, t.bindings[c].scope, scope)
          ensures t.bindings[c].scope <= scope
        {
          EnclosingIsEarlier(t, t.bindings[c].scope, scope);
        }
      case None =>
        FirstNamedFinds(t, t.scopes[scope].bindings, key);
        match t.scopes[scope].parent {
          case Some(p) => ResolveIff(t, p, key, b);
          case None =>
        }
    }
  }

  lemma {:induction false} FirstNamedIff(t: Tree, ids: seq<BindingId>, key: string, b: BindingId)
    requires Known(t, ids)
    ensures FirstNamed(t, ids, key) == Some(b) <==> b < |t.bindings| && FirstIn(t, ids, key, b)
  {
    if |ids| > 0 && Key(t.bindings[ids[0]].name) == key {
      assert ids[0] < |t.bindings| && FirstAt(t, ids, key, ids[0], 0);
    } else if |ids| > 0 && b < |t.bindings| {
      FirstNamedIff(t, ids[1..], key, b);
      FirstInRest(t, ids, key, b);
    }
  }

  lemma FirstInRest(t: Tree, ids: seq<BindingId>, key: string, b: BindingId)
    requires |ids| > 0 && Known(t, ids) && b < |t.bindings| && Key(t.bindings[ids[0]].name) != key
    ensures FirstIn(t, ids, key, b) <==> FirstIn(t, ids[1..], key, b)
  {
    forall i: nat ensures FirstAt(t, ids, key, b, i + 1) <==> FirstAt(t, ids[1..], key, b, i) {
      assert forall j :: 0 < j < |ids| ==> ids[j] == ids[1..][j - 1];
      assert forall j :: 0 <= j < |ids[1..]| ==> ids[1..][j] == ids[j + 1];
    }
    if i: nat :| FirstAt(t, ids, key, b, i) {
      assert FirstAt(t, ids[1..], key, b, i - 1);
    }
  }

  /** `b` means `key`, and nothing listed before it does. */
  ghost predicate FirstIn(t: Tree, ids: seq<BindingId>, key: string, b: BindingId)
    requires Known(t, ids) && b < |t.bindings|
  {
    exists i: nat :: FirstAt(t, ids, key, b, i)
  }

  predicate FirstAt(t: Tree, ids: seq<BindingId>, key: string, b: BindingId, i: nat)
    requires Known(t, ids) && b < |t.bindings|
  {
    && i < |ids| && ids[i] == b && Key(t.bindings[b].name) == key
    && forall j :: 0 <= j < i ==> Key(t.bindings[ids[j]].name) != key
  }

  // --- Variables ---------------------------------------------------------------------

  /** The function or file scope whose execution frame a scope shares. */
  function Frame(t: Tree, scope: ScopeId): (frame: ScopeId)
    requires WellFormed(t) && scope < |t.scopes|
    ensures frame <= scope
    decreases scope
  {
    if t.scopes[scope].kind == File || t.scopes[scope].kind == Function then scope
    else match t.scopes[scope].parent case Some(p) => Frame(t, p) case None => scope
  }

  /** The frame is the nearest function or file scope around, and is its own frame. */
  lemma {:induction false} FrameIsNearestRoot(t: Tree, scope: ScopeId, between: ScopeId)
    requires WellFormed(t) && scope < |t.scopes|
    ensures Encloses(t, Frame(t, scope), scope)
    ensures Frame(t, Frame(t, scope)) == Frame(t, scope)
    ensures var root := t.scopes[Frame(t, scope)];
      root.kind == File || root.kind == Function || root.parent == None
    ensures Encloses(t, between, scope) && Frame(t, scope) < between ==>
              between < |t.scopes| && t.scopes[between].kind != File && t.scopes[between].kind != Function
    decreases scope
  {
    if t.scopes[scope].kind != File && t.scopes[scope].kind != Function && t.scopes[scope].parent.Some? {
      FrameIsNearestRoot(t, t.scopes[scope].parent.value, between);
    } else if Encloses(t, between, scope) {
      EnclosingIsEarlier(t, between, scope);
    }
  }

  lemma {:induction false} EnclosingIsEarlier(t: Tree, outer: ScopeId, inner: ScopeId)
    requires WellFormed(t) && inner < |t.scopes| && Encloses(t, outer, inner)
    ensures outer <= inner
    decreases inner
  {
    if outer != inner {
      EnclosingIsEarlier(t, outer, t.scopes[inner].parent.value);
    }
  }

  predicate SameVariable(t: Tree, a: BindingId, b: BindingId)
    requires WellFormed(t) && a < |t.bindings| && b < |t.bindings|
  {
    t.bindings[a].name == t.bindings[b].name
    && Frame(t, t.bindings[a].scope) == Frame(t, t.bindings[b].scope)
  }

  /** The bindings below `n` that name the same variable as `id`, in order. */
  function CohortBelow(t: Tree, id: BindingId, n: nat): (cohort: seq<BindingId>)
    requires WellFormed(t) && id < |t.bindings| && n <= |t.bindings|
    ensures forall b: nat :: b in cohort <==> b < n && SameVariable(t, id, b)
  {
    if n == 0 then []
    else CohortBelow(t, id, n - 1) + (if SameVariable(t, id, n - 1) then [n - 1] else [])
  }

  function Cohort(t: Tree, id: BindingId): seq<BindingId>
    requires WellFormed(t) && id < |t.bindings|
  {
    CohortBelow(t, id, |t.bindings|)
  }

  /** A cohort is every binding of the same name in the same frame, in the order of the bindings. */
  lemma {:induction false} CohortIs(t: Tree, a: BindingId, n: nat)
    requires WellFormed(t) && a < |t.bindings| && n <= |t.bindings|
    ensures forall b: nat :: b in CohortBelow(t, a, n) <==>
      && b < n && t.bindings[b].name == t.bindings[a].name
      && Frame(t, t.bindings[b].scope) == Frame(t, t.bindings[a].scope)
    ensures forall i, j :: 0 <= i < j < |CohortBelow(t, a, n)| ==> CohortBelow(t, a, n)[i] < CohortBelow(t, a, n)[j]
    decreases n
  {
    if n > 0 {
      CohortIs(t, a, n - 1);
      var below := CohortBelow(t, a, n - 1);
      assert forall i :: 0 <= i < |below| ==> below[i] in below;
    }
  }

  /** Cohorts partition the bindings: members of one share it, and others share nothing with it. */
  lemma CohortsPartition(t: Tree, a: BindingId, b: BindingId)
    requires WellFormed(t) && a < |t.bindings| && b < |t.bindings|
    ensures a in Cohort(t, a)
    ensures if b in Cohort(t, a) then Cohort(t, b) == Cohort(t, a)
            else forall c :: c in Cohort(t, a) ==> c !in Cohort(t, b)
  {
    if b in Cohort(t, a) {
      CohortsAgree(t, a, b, |t.bindings|);
    }
  }

  lemma {:induction false} CohortsAgree(t: Tree, a: BindingId, b: BindingId, n: nat)
    requires WellFormed(t) && a < |t.bindings| && b < |t.bindings| && n <= |t.bindings|
    requires SameVariable(t, a, b)
    ensures CohortBelow(t, a, n) == CohortBelow(t, b, n)
  {
    if n > 0 {
      CohortsAgree(t, a, b, n - 1);
    }
  }

  // --- Names in scope ------------------------------------------------------------------

  datatype NameEntry = NameEntry(name: string, kind: BindingKind)

  /** The declarations of a scope followed by those of the scopes around it. */
  function Visible(t: Tree, scope: ScopeId): (ids: seq<BindingId>)
    requires WellFormed(t) && scope < |t.scopes|
    ensures Known(t, ids)
    decreases scope
  {
    t.scopes[scope].bindings
    + (match t.scopes[scope].parent case Some(p) => Visible(t, p) case None => [])
  }

  function VisibleFrom(t: Tree, scope: Option<ScopeId>): seq<BindingId>
    requires WellFormed(t) && (scope.Some? ==> scope.value < |t.scopes|)
  {
    match scope case Some(s) => Visible(t, s) case None => []
  }

  lemma VisibleAssociates(t: Tree, before: seq<BindingId>, scope: ScopeId)
    requires WellFormed(t) && scope < |t.scopes|
    ensures before + Visible(t, scope)
         == before + t.scopes[scope].bindings + VisibleFrom(t, t.scopes[scope].parent)
  {
  }

  /** `e` names `ids[k]`, the first binding of `ids` with that spelling. */
  predicate IsFirstAt(t: Tree, ids: seq<BindingId>, k: nat, e: NameEntry)
    requires Known(t, ids) && k < |ids|
  {
    && e == NameEntry(t.bindings[ids[k]].name, t.bindings[ids[k]].kind)
    && forall j :: 0 <= j < k ==> t.bindings[ids[j]].name != e.name
  }

  ghost predicate OccursFirst(t: Tree, ids: seq<BindingId>, e: NameEntry)
    requires Known(t, ids)
  {
    exists k :: 0 <= k < |ids| && IsFirstAt(t, ids, k, e)
  }

  /** Each name of `ids` once, with the kind of the first binding spelled that way. */
  ghost predicate ListsFirsts(t: Tree, ids: seq<BindingId>, names: seq<NameEntry>)
    requires Known(t, ids)
  {
    && (forall i, j :: 0 <= i < j < |names| ==> names[i].name != names[j].name)
    && (forall i :: 0 <= i < |names| ==> OccursFirst(t, ids, names[i]))
    && (forall k :: 0 <= k < |ids| ==> t.bindings[ids[k]].name in NameSet(names))
  }

  function NameSet(names: seq<NameEntry>): set<string> {
    if |names| == 0 then {} else NameSet(names[..|names| - 1]) + {names[|names| - 1].name}
  }

  lemma {:induction false} NameSetMembers(names: seq<NameEntry>, name: string)
    ensures name in NameSet(names) <==> exists i :: 0 <= i < |names| && names[i].name == name
  {
    if |names| > 0 {
      var init := names[..|names| - 1];
      NameSetMembers(init, name);
      assert forall i :: 0 <= i < |init| ==> init[i] == names[i];
    }
  }

  lemma {:induction false} ResolveIsFirstVisible(t: Tree, scope: ScopeId, key: string)
    requires WellFormed(t) && scope < |t.scopes|
    ensures Resolve(t, scope, key) == FirstNamed(t, Visible(t, scope), key)
    decreases scope
  {
    var own := t.scopes[scope].bindings;
    match t.scopes[scope].parent {
      case Some(p) =>
        ResolveIsFirstVisible(t, p, key);
        FirstNamedConcat(t, own, Visible(t, p), key);
      case None =>
        assert Visible(t, scope) == own;
    }
  }

  lemma {:induction false} FirstNamedConcat(t: Tree, a: seq<BindingId>, b: seq<BindingId>, key: string)
    requires Known(t, a)
    requires Known(t, b)
    ensures FirstNamed(t, a + b, key)
         == if FirstNamed(t, a, key).Some? then FirstNamed(t, a, key) else FirstNamed(t, b, key)
  {
    if |a| == 0 {
      assert a + b == b;
    } else {
      assert (a + b)[1..] == a[1..] + b;
      FirstNamedConcat(t, a[1..], b, key);
    }
  }

  lemma {:induction false} FirstNamedAt(t: Tree, ids: seq<BindingId>, key: string, k: nat)
    requires Known(t, ids)
    requires k < |ids| && Key(t.bindings[ids[k]].name) == key
    requires forall j :: 0 <= j < k ==> Key(t.bindings[ids[j]].name) != key
    ensures FirstNamed(t, ids, key) == Some(ids[k])
  {
    if k > 0 {
      FirstNamedAt(t, ids[1..], key, k - 1);
    }
  }

  lemma {:induction false} FirstNamedFinds(t: Tree, ids: seq<BindingId>, key: string)
    requires Known(t, ids)
    ensures FirstNamed(t, ids, key).Some? ==>
              FirstNamed(t, ids, key).value in ids && Key(t.bindings[FirstNamed(t, ids, key).value].name) == key
    ensures FirstNamed(t, ids, key).None? ==>
              forall k :: 0 <= k < |ids| ==> Key(t.bindings[ids[k]].name) != key
  {
    if |ids| > 0 {
      FirstNamedFinds(t, ids[1..], key);
    }
  }

  /** No visible name is written with backticks. */
  ghost predicate Plain(t: Tree, ids: seq<BindingId>)
    requires Known(t, ids)
  {
    forall k :: 0 <= k < |ids| ==> Key(t.bindings[ids[k]].name) == t.bindings[ids[k]].name
  }

  /**
   * Where no backticks are involved, the list names exactly what resolves from
   * the scope, each with the kind of the binding resolution returns.
   */
  lemma ListedNamesAreWhatResolves(t: Tree, scope: ScopeId, names: seq<NameEntry>, name: string)
    requires WellFormed(t) && scope < |t.scopes|
    requires ListsFirsts(t, Visible(t, scope), names) && Plain(t, Visible(t, scope))
    ensures name in NameSet(names) <==> Resolve(t, scope, name).Some?
    ensures forall i :: 0 <= i < |names| && names[i].name == name ==>
              Resolve(t, scope, name).Some? && t.bindings[Resolve(t, scope, name).value].kind == names[i].kind
  {
    var ids := Visible(t, scope);
    ResolveIsFirstVisible(t, scope, name);
    FirstNamedFinds(t, ids, name);
    NameSetMembers(names, name);
    forall i | 0 <= i < |names| && names[i].name == name
      ensures FirstNamed(t, ids, name).Some? && t.bindings[FirstNamed(t, ids, name).value].kind == names[i].kind
    {
      var k :| 0 <= k < |ids| && IsFirstAt(t, ids, k, names[i]);
      FirstNamedAt(t, ids, name, k);
    }
  }

  /** With backticks, an entry shows the resolved kind as soon as resolution returns a binding spelled alike. */
  lemma ListedKindIsResolvedIf(t: Tree, scope: ScopeId, names: seq<NameEntry>, i: nat)
    requires WellFormed(t) && scope < |t.scopes|
    requires ListsFirsts(t, Visible(t, scope), names) && i < |names|
    ensures Resolve(t, scope, Key(names[i].name)).Some?
    ensures t.bindings[Resolve(t, scope, Key(names[i].name)).value].name == names[i].name ==>
              t.bindings[Resolve(t, scope, Key(names[i].name)).value].kind == names[i].kind
  {
    var ids := Visible(t, scope);
    ResolveIsFirstVisible(t, scope, Key(names[i].name));
    FirstNamedFinds(t, ids, Key(names[i].name));
    var k :| 0 <= k < |ids| && IsFirstAt(t, ids, k, names[i]);
    var found := FirstNamed(t, ids, Key(names[i].name)).value;
    if t.bindings[found].name == names[i].name {
      FirstSpelledIsFound(t, ids, Key(names[i].name), k);
    }
  }

  lemma {:induction false} FirstSpelledIsFound(t: Tree, ids: seq<BindingId>, key: string, k: nat)
    requires Known(t, ids)
    requires k < |ids| && Key(t.bindings[ids[k]].name) == key
    requires FirstNamed(t, ids, key).Some?
    requires t.bindings[FirstNamed(t, ids, key).value].name == t.bindings[ids[k]].name
    requires forall j :: 0 <= j < k ==> t.bindings[ids[j]].name != t.bindings[ids[k]].name
    ensures FirstNamed(t, ids, key) == Some(ids[k])
  {
    if k > 0 {
      FirstSpelledIsFound(t, ids[1..], key, k - 1);
    }
  }

  // --- The model object ------------------------------------------------------------------

  class SemanticModel {
    var scopes: seq<Scope>
    var bindings: seq<Binding>
    /** Each scope's declarations by unquoted name, in declaration order. */
    var bindingsByName: map<(ScopeId, string), seq<BindingId>>

    function View(): Tree
      reads this
    {
      Tree(scopes, bindings)
    }

    ghost predicate Valid()
      reads this
    {
      WellFormed(View()) && Indexed(View(), bindingsByName)
    }

    constructor (range: Range)
      ensures Valid()
      ensures View() == Tree([Scope(File, None, range, [])], [])
    {
      scopes, bindings, bindingsByName := [Scope(File, None, range, [])], [], map[];
    }

    method PushScope(kind: ScopeKind, parent: ScopeId, range: Range) returns (id: ScopeId)
      requires Valid() && parent < |scopes|
      modifies this`scopes
      ensures Valid()
      ensures id == |old(scopes)| && scopes == old(scopes) + [Scope(kind, Some(parent), range, [])]
    {
      id := |scopes|;
      IndexSurvivesNewScope(View(), bindingsByName, Scope(kind, Some(parent), range, []));
      scopes := scopes + [Scope(kind, Some(parent), range, [])];
    }

    method PushBinding(
        scope: ScopeId, name: string, kind: BindingKind, defRange: Range, loopRange: Option<Range>)
      returns (id: BindingId)
      requires Valid() && scope < |scopes|
      modifies this
      ensures Valid()
      ensures id == |old(bindings)|
      ensures View() == WithBinding(old(View()), Binding(name, kind, scope, defRange, loopRange))
    {
      var b := Binding(name, kind, scope, defRange, loopRange);
      id := |bindings|;
      IndexFollowsNewBinding(View(), bindingsByName, b);
      var at := (scope, Key(name));
      bindingsByName := bindingsByName[at := (if at in bindingsByName then bindingsByName[at] else []) + [id]];
      bindings := bindings + [b];
      scopes := scopes[scope := scopes[scope].(bindings := scopes[scope].bindings + [id])];
    }

    function ScopeBindingsNamed(scope: ScopeId, name: string): seq<BindingId>
      reads this
    {
      var at := (scope, Key(name));
      if at in bindingsByName then bindingsByName[at] else []
    }

    /** The indexed walk outward finds what the naive scan finds. */
    method ResolveLocal(ident: Ident) returns (found: Option<BindingId>)
      requires Valid() && ident.scope < |scopes|
      ensures found == Resolve(View(), ident.scope, Key(ident.name))
    {
      ghost var t := View();
      var current: Option<ScopeId> := Some(ident.scope);
      while current.Some?
        invariant current.Some? ==> current.value < |scopes|
        invariant current.Some? ==>
          Resolve(t, ident.scope, Key(ident.name)) == Resolve(t, current.value, Key(ident.name))
        invariant current.None? ==> Resolve(t, ident.scope, Key(ident.name)) == None
        decreases if current.Some? then current.value + 1 else 0
      {
        FirstOfNamed(t, scopes[current.value].bindings, Key(ident.name));
        var named := ScopeBindingsNamed(current.value, ident.name);
        assert IndexedAt(t, bindingsByName, current.value, Key(ident.name));
        assert named == Named(t, t.scopes[current.value].bindings, Key(ident.name));
        if |named| > 0 {
          return Some(named[0]);
        }
        current := scopes[current.value].parent;
      }
      return None;
    }

    method InnermostScopeAt(offset: nat) returns (found: ScopeId)
      requires Valid()
      ensures found == Innermost(View(), offset)
    {
      var best: Option<ScopeId> := None;
      for i := 0 to |scopes|
        invariant best == ShortestBelow(View(), offset, i)
      {
        if scopes[i].range.Touches(offset) {
          if best.None? || Length(View(), i) < Length(View(), best.value) {
            best := Some(i);
          }
        }
      }
      found := match best case Some(s) => s case None => 0;
    }

    method NamesInScopeAt(offset: nat) returns (names: seq<NameEntry>)
      requires Valid()
      ensures ListsFirsts(View(), Visible(View(), Innermost(View(), offset)), names)
    {
      var innermost := InnermostScopeAt(offset);
      ghost var scope := innermost;
      ghost var t: Tree, ids: seq<BindingId> := View(), [];
      var seen: set<string> := {};
      names := [];
      var current: Option<ScopeId> := Some(innermost);
      assert Visible(t, scope) == [] + Visible(t, scope);
      while current.Some?
        invariant current.Some? ==> current.value < |scopes|
        invariant Known(View(), ids)
        invariant Visible(t, scope) == ids + VisibleFrom(t, current)
        invariant seen == NameSet(names)
        invariant ListsFirsts(t, ids, names)
        decreases if current.Some? then current.value + 1 else 0
      {
        var own := scopes[current.value].bindings;
        names, seen := ListScope(own, ids, names, seen);
        VisibleAssociates(t, ids, current.value);
        ids := ids + own;
        current := scopes[current.value].parent;
      }
      assert ids == Visible(t, scope);
    }

    /** The inner loop: append the names of one scope not seen further in. */
    method ListScope(own: seq<BindingId>, ghost before: seq<BindingId>, names: seq<NameEntry>, seen: set<string>)
      returns (names': seq<NameEntry>, seen': set<string>)
      requires Known(View(), before + own)
      requires Known(View(), before)
      requires seen == NameSet(names)
      requires ListsFirsts(View(), before, names)
      ensures seen' == NameSet(names')
      ensures ListsFirsts(View(), before + own, names')
    {
      ghost var t := View();
      names', seen' := names, seen;
      assert before + own[..0] == before;
      for i := 0 to |own|
        invariant seen' == NameSet(names')
        invariant Known(View(), before + own[..i])
        invariant ListsFirsts(t, before + own[..i], names')
      {
        assert before + own[..i + 1] == (before + own[..i]) + [own[i]];
        assert own[i] in before + own;
        var b := bindings[own[i]];
        if b.name in seen' {
          ListSeen(t, before + own[..i], own[i], names');
        } else {
          ListNew(t, before + own[..i], own[i], names');
          assert (names' + [NameEntry(b.name, b.kind)])[..|names'|] == names';
          seen' := seen' + {b.name};
          names' := names' + [NameEntry(b.name, b.kind)];
        }
      }
      assert own[..|own|] == own;
    }

    method FrameScope(scope: ScopeId) returns (frame: ScopeId)
      requires Valid() && scope < |scopes|
      ensures frame == Frame(View(), scope)
    {
      var current: ScopeId := scope;
      while true
        invariant current < |scopes|
        invariant Frame(View(), scope) == Frame(View(), current)
        decreases current
      {
        if scopes[current].kind == File || scopes[current].kind == Function {
          return current;
        }
        match scopes[current].parent {
          case Some(p) => current := p;
          case None => return current;
        }
      }
    }
  }

  /** The name index lists, for every scope and key, exactly the naive scan's answer. */
  ghost predicate Indexed(t: Tree, index: map<(ScopeId, string), seq<BindingId>>)
    requires WellFormed(t)
  {
    forall s: ScopeId, key: string :: IndexedAt(t, index, s, key)
  }

  ghost predicate IndexedAt(t: Tree, index: map<(ScopeId, string), seq<BindingId>>, s: ScopeId, key: string)
    requires WellFormed(t)
  {
    (if (s, key) in index then index[(s, key)] else [])
      == if s < |t.scopes| then Named(t, t.scopes[s].bindings, key) else []
  }

  function WithBinding(t: Tree, b: Binding): Tree
    requires b.scope < |t.scopes|
  {
    Tree(t.scopes[b.scope := t.scopes[b.scope].(bindings := t.scopes[b.scope].bindings + [|t.bindings|])],
         t.bindings + [b])
  }

  lemma {:induction false} NamedIgnoresLater(t: Tree, u: Tree, ids: seq<BindingId>, key: string)
    requires Known(t, ids)
    requires t.bindings <= u.bindings
    ensures Named(t, ids, key) == Named(u, ids, key)
  {
    if |ids| > 0 {
      assert ids[|ids| - 1] in ids;
      NamedIgnoresLater(t, u, ids[..|ids| - 1], key);
    }
  }

  lemma IndexSurvivesNewScope(t: Tree, index: map<(ScopeId, string), seq<BindingId>>, s: Scope)
    requires WellFormed(t) && Indexed(t, index)
    requires s.parent.Some? && s.parent.value < |t.scopes| && s.bindings == []
    ensures var u := Tree(t.scopes + [s], t.bindings); WellFormed(u) && Indexed(u, index)
  {
    NewScopeIsWellFormed(t, s);
    forall x: ScopeId, key: string ensures IndexedAt(Tree(t.scopes + [s], t.bindings), index, x, key) {
      assert IndexedAt(t, index, x, key);
      IndexedAfterNewScope(t, index, s, x, key);
    }
  }

  lemma NewScopeIsWellFormed(t: Tree, s: Scope)
    requires WellFormed(t)
    requires s.parent.Some? && s.parent.value < |t.scopes| && s.bindings == []
    ensures WellFormed(Tree(t.scopes + [s], t.bindings))
  {
  }

  lemma IndexedAfterNewScope(
      t: Tree, index: map<(ScopeId, string), seq<BindingId>>, s: Scope, x: ScopeId, key: string)
    requires WellFormed(t) && WellFormed(Tree(t.scopes + [s], t.bindings)) && s.bindings == []
    requires IndexedAt(t, index, x, key)
    ensures IndexedAt(Tree(t.scopes + [s], t.bindings), index, x, key)
  {
    if x < |t.scopes| {
      NamedIgnoresLater(t, Tree(t.scopes + [s], t.bindings), t.scopes[x].bindings, key);
    }
  }

  lemma IndexFollowsNewBinding(t: Tree, index: map<(ScopeId, string), seq<BindingId>>, b: Binding)
    requires WellFormed(t) && Indexed(t, index) && b.scope < |t.scopes|
    ensures var at := (b.scope, Key(b.name));
            var u := WithBinding(t, b);
      && WellFormed(u)
      && Indexed(u, index[at := (if at in index then index[at] else []) + [|t.bindings|]])
  {
    var at := (b.scope, Key(b.name));
    var u := WithBinding(t, b);
    var index' := index[at := (if at in index then index[at] else []) + [|t.bindings|]];
    NewBindingIsWellFormed(t, b);
    forall x: ScopeId, key: string ensures IndexedAt(u, index', x, key) {
      IndexedAfterNewBinding(t, index, b, x, key);
    }
  }

  lemma IndexedAfterNewBinding(
      t: Tree, index: map<(ScopeId, string), seq<BindingId>>, b: Binding, x: ScopeId, key: string)
    requires WellFormed(t) && b.scope < |t.scopes| && WellFormed(WithBinding(t, b))
    requires IndexedAt(t, index, x, key)
    ensures var at := (b.scope, Key(b.name));
      IndexedAt(WithBinding(t, b), index[at := (if at in index then index[at] else []) + [|t.bindings|]], x, key)
  {
    if x < |t.scopes| {
      NamedAfterNewBinding(t, b, x, key);
    }
  }

  lemma NamedAfterNewBinding(t: Tree, b: Binding, x: ScopeId, key: string)
    requires WellFormed(t) && b.scope < |t.scopes| && x < |t.scopes|
    requires WellFormed(WithBinding(t, b))
    ensures Named(WithBinding(t, b), WithBinding(t, b).scopes[x].bindings, key)
         == Named(t, t.scopes[x].bindings, key)
            + (if x == b.scope && key == Key(b.name) then [|t.bindings|] else [])
  {
    var u := WithBinding(t, b);
    NamedIgnoresLater(t, u, t.scopes[x].bindings, key);
    if x == b.scope {
      var ids := u.scopes[x].bindings;
      assert ids[..|ids| - 1] == t.scopes[x].bindings;
    }
  }

  lemma NewBindingIsWellFormed(t: Tree, b: Binding)
    requires WellFormed(t) && b.scope < |t.scopes|
    ensures WellFormed(WithBinding(t, b))
  {
    var u := WithBinding(t, b);
    forall x: nat | x < |u.bindings| ensures x in u.scopes[u.bindings[x].scope].bindings {
      if x < |t.bindings| {
        assert x in t.scopes[t.bindings[x].scope].bindings;
      }
    }
  }

  lemma FirstAtExtends(t: Tree, ids: seq<BindingId>, b: BindingId, e: NameEntry)
    requires Known(t, ids) && b < |t.bindings|
    requires OccursFirst(t, ids, e)
    ensures OccursFirst(t, ids + [b], e)
  {
    var k :| 0 <= k < |ids| && IsFirstAt(t, ids, k, e);
    assert IsFirstAt(t, ids + [b], k, e);
  }

  lemma ListSeen(t: Tree, ids: seq<BindingId>, b: BindingId, names: seq<NameEntry>)
    requires Known(t, ids) && b < |t.bindings|
    requires ListsFirsts(t, ids, names) && t.bindings[b].name in NameSet(names)
    ensures ListsFirsts(t, ids + [b], names)
  {
    forall i | 0 <= i < |names|
      ensures OccursFirst(t, ids + [b], names[i])
    {
      FirstAtExtends(t, ids, b, names[i]);
    }
  }

  lemma ListNew(t: Tree, ids: seq<BindingId>, b: BindingId, names: seq<NameEntry>)
    requires Known(t, ids) && b < |t.bindings|
    requires ListsFirsts(t, ids, names) && t.bindings[b].name !in NameSet(names)
    ensures ListsFirsts(t, ids + [b], names + [NameEntry(t.bindings[b].name, t.bindings[b].kind)])
  {
    var entry := NameEntry(t.bindings[b].name, t.bindings[b].kind);
    var longer := names + [entry];
    assert longer[..|names|] == names;
    assert NameSet(longer) == NameSet(names) + {entry.name};
    forall i | 0 <= i < |names| ensures names[i].name != entry.name {
      NameSetMembers(names, entry.name);
    }
    forall i | 0 <= i < |longer|
      ensures OccursFirst(t, ids + [b], longer[i])
    {
      if i < |names| {
        FirstAtExtends(t, ids, b, names[i]);
      } else {
        assert IsFirstAt(t, ids + [b], |ids|, entry);
      }
    }
  }
}
