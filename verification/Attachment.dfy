/**
 * Where a node directive attaches, `src/linter/suppression.rs`: a walk over
 * the syntax tree from the comment to the next thing that means something.
 */
module Attachment {
  import opened Common

  datatype Kind =
    | ArgList | Arg | RoxygenBlock
    | Comma | Comment | Whitespace | Newline | AssignEq | Ident | Str
    | Field | Record | ValueLine | CommentLine | BlankLine
    | Other(tag: nat)

  datatype Tree = Token(kind: Kind, width: nat) | Node(kind: Kind, children: seq<Tree>)

  /** A position in a tree: the child taken at each level. */
  type Pos = seq<nat>

  predicate IsPos(t: Tree, p: Pos)
    decreases |p|
  {
    |p| == 0 || (t.Node? && p[0] < |t.children| && IsPos(t.children[p[0]], p[1..]))
  }

  function At(t: Tree, p: Pos): Tree
    requires IsPos(t, p)
    decreases |p|
  {
    if |p| == 0 then t else At(t.children[p[0]], p[1..])
  }

  function Width(t: Tree): nat {
    match t
    case Token(_, width) => width
    case Node(_, children) => Widths(children)
  }

  function Widths(ts: seq<Tree>): nat {
    if |ts| == 0 then 0 else Width(ts[0]) + Widths(ts[1..])
  }

  function Start(t: Tree, p: Pos): nat
    requires IsPos(t, p)
    decreases |p|
  {
    if |p| == 0 then 0 else Widths(t.children[..p[0]]) + Start(t.children[p[0]], p[1..])
  }

  function End(t: Tree, p: Pos): nat
    requires IsPos(t, p)
  {
    Start(t, p) + Width(At(t, p))
  }

  function Parent(p: Pos): Pos
    requires |p| > 0
  {
    p[..|p| - 1]
  }

  function Index(p: Pos): nat
    requires |p| > 0
  {
    p[|p| - 1]
  }

  lemma {:induction false} PrefixIsPos(t: Tree, p: Pos, n: nat)
    requires IsPos(t, p) && n <= |p|
    ensures IsPos(t, p[..n])
    ensures n < |p| ==> At(t, p[..n]).Node? && p[n] < |At(t, p[..n]).children|
    decreases |p|
  {
    if n > 0 {
      PrefixIsPos(t.children[p[0]], p[1..], n - 1);
      assert p[..n][1..] == p[1..][..n - 1];
    }
  }

  lemma {:induction false} ChildPos(t: Tree, p: Pos, i: nat)
    requires IsPos(t, p)
    ensures IsPos(t, p + [i]) <==> At(t, p).Node? && i < |At(t, p).children|
    ensures IsPos(t, p + [i]) ==> At(t, p + [i]) == At(t, p).children[i]
    decreases |p|
  {
    if |p| > 0 {
      ChildPos(t.children[p[0]], p[1..], i);
      assert (p + [i])[1..] == p[1..] + [i];
    } else {
      assert (p + [i])[1..] == [];
    }
  }

  // --- Document order --------------------------------------------------------

  /** `a` and `b` part at some level, and `a` goes left there. */
  predicate Precedes(a: Pos, b: Pos) {
    exists k: nat :: k < |a| && PartAt(a, b, k)
  }

  predicate PartAt(a: Pos, b: Pos, k: nat) {
    k < |a| && k < |b| && a[k] < b[k] && forall i :: 0 <= i < k ==> a[i] == b[i]
  }

  lemma {:induction false} WidthsSplit(ts: seq<Tree>, i: nat, j: nat)
    requires i < j <= |ts|
    ensures Widths(ts[..i]) + Width(ts[i]) <= Widths(ts[..j])
  {
    if i > 0 {
      WidthsSplit(ts[1..], i - 1, j - 1);
      assert ts[..i][1..] == ts[1..][..i - 1] && ts[..j][1..] == ts[1..][..j - 1];
    }
  }

  lemma {:induction false} EndsInside(t: Tree, p: Pos)
    requires IsPos(t, p)
    ensures End(t, p) <= Width(t)
    decreases |p|
  {
    if |p| > 0 {
      EndsInside(t.children[p[0]], p[1..]);
      WidthsSplit(t.children, p[0], |t.children|);
      assert t.children[..|t.children|] == t.children;
    }
  }

  /** What precedes in the document ends before what it precedes starts. */
  lemma {:induction false} PrecedesByOffset(t: Tree, a: Pos, b: Pos)
    requires IsPos(t, a) && IsPos(t, b) && Precedes(a, b)
    ensures End(t, a) <= Start(t, b)
    decreases |a|
  {
    var k: nat :| k < |a| && PartAt(a, b, k);
    if k == 0 {
      EndsInside(t.children[a[0]], a[1..]);
      WidthsSplit(t.children, a[0], b[0]);
    } else {
      assert PartAt(a[1..], b[1..], k - 1);
      PrecedesByOffset(t.children[a[0]], a[1..], b[1..]);
    }
  }

  // --- What the walk steps over ------------------------------------------------

  predicate IsTrivia(kind: Kind) {
    kind == Whitespace || kind == Newline
  }

  predicate IsSkippedKind(kind: Kind) {
    IsTrivia(kind) || kind == Comment
  }

  /** The index of the first `=` token, or the number of children. */
  function EqIndex(children: seq<Tree>): (i: nat)
    ensures i <= |children|
    ensures forall j :: 0 <= j < i ==> children[j].kind != AssignEq
    ensures i < |children| ==> children[i].kind == AssignEq
  {
    if |children| == 0 || children[0].kind == AssignEq then 0 else 1 + EqIndex(children[1..])
  }

  /** A name token stands before the `=`. */
  predicate IsNamed(children: seq<Tree>) {
    var eq := EqIndex(children);
    eq < |children|
    && exists i :: 0 <= i < eq && children[i].Token? && (children[i].kind == Ident || children[i].kind == Str)
  }

  function FirstMeaningful(children: seq<Tree>): Option<Kind> {
    if |children| == 0 then None
    else if IsSkippedKind(children[0].kind) then FirstMeaningful(children[1..])
    else Some(children[0].kind)
  }

  /** The kind of an argument's value: the first meaningful element after the `=`, if there is one. */
  function ValueKind(children: seq<Tree>): Option<Kind> {
    var eq := EqIndex(children);
    FirstMeaningful(if eq < |children| then children[eq + 1..] else children)
  }

  /** An argument made of comments only; an empty argument is a slot and does not count. */
  predicate IsCommentOnlyArg(t: Tree) {
    && t.Node? && t.kind == Arg && Width(t) > 0
    && !IsNamed(t.children)
    && (ValueKind(t.children) == None || ValueKind(t.children) == Some(RoxygenBlock))
  }

  predicate SteppedOver(t: Tree, inArguments: bool) {
    IsSkippedKind(t.kind) || (inArguments && (t.kind == Comma || IsCommentOnlyArg(t)))
  }

  /**
   * An argument holds comments only: it is not empty, no identifier or string
   * stands before an `=`, and what follows the `=`, or all of it where there is
   * none, is blank or starts with a roxygen block.
   */
  lemma CommentOnlyArgIff(t: Tree)
    requires t.Node?
    ensures var children, eq := t.children, EqIndex(t.children);
      var from := if eq < |children| then eq + 1 else 0;
      IsCommentOnlyArg(t) <==>
        && t.kind == Arg && Width(t) > 0
        && (eq == |children| || forall i :: 0 <= i < eq && children[i].Token? ==> children[i].kind !in {Ident, Str})
        && ((forall i :: from <= i < |children| ==> children[i].kind in {Whitespace, Newline, Comment})
            || exists i: nat :: StartsWith(children, from, i, RoxygenBlock))
  {
    var children, eq := t.children, EqIndex(t.children);
    var from := if eq < |children| then eq + 1 else 0;
    MeaningfulIff(children, from, RoxygenBlock);
  }

  /** The first element from `from` on that is neither blank nor a comment is at `i` and has this kind. */
  predicate StartsWith(children: seq<Tree>, from: nat, i: nat, kind: Kind) {
    && from <= i < |children| && children[i].kind == kind && kind !in {Whitespace, Newline, Comment}
    && forall j :: from <= j < i ==> children[j].kind in {Whitespace, Newline, Comment}
  }

  lemma {:induction false} MeaningfulIff(children: seq<Tree>, from: nat, kind: Kind)
    requires from <= |children|
    ensures FirstMeaningful(children[from..]) == None <==>
      forall i :: from <= i < |children| ==> children[i].kind in {Whitespace, Newline, Comment}
    ensures FirstMeaningful(children[from..]) == Some(kind) <==> exists i: nat :: StartsWith(children, from, i, kind)
    decreases |children| - from
  {
    if from < |children| {
      assert children[from..][1..] == children[from + 1..];
      if children[from].kind in {Whitespace, Newline, Comment} {
        MeaningfulIff(children, from + 1, kind);
        if i: nat :| StartsWith(children, from, i, kind) {
          assert StartsWith(children, from + 1, i, kind);
        } else if i: nat :| i < |children| && children[i].kind == kind && StartsWith(children, from + 1, i, kind) {
          assert StartsWith(children, from, i, kind);
        }
      } else {
        assert forall i: nat :: StartsWith(children, from, i, kind) ==> i == from;
        assert children[from].kind == kind ==> StartsWith(children, from, from, kind);
      }
    }
  }

  /** Blanks and comments are stepped over anywhere; among arguments so are commas and arguments of comments. */
  lemma SteppedOverIff(t: Tree, inArguments: bool)
    ensures SteppedOver(t, inArguments) <==>
      || t.kind in {Whitespace, Newline, Comment}
      || (inArguments && (t.kind == Comma || (t.Node? && IsCommentOnlyArg(t))))
  {
  }

  // --- Where it may end up -------------------------------------------------------

  predicate InArguments(t: Tree, parent: Pos)
    requires IsPos(t, parent)
  {
    At(t, parent).kind == ArgList
  }

  /** No argument list encloses `p` at level `from` or deeper. */
  ghost predicate NoListBelow(t: Tree, p: Pos, from: nat)
    requires IsPos(t, p)
  {
    forall n :: from <= n < |p| ==> !ListAt(t, p, n)
  }

  predicate ListAt(t: Tree, p: Pos, n: nat)
    requires IsPos(t, p) && n < |p|
  {
    PrefixIsPos(t, p, n);
    At(t, p[..n]).kind == ArgList
  }

  /**
   * `q` is a later sibling of `p` or of one of its ancestors, no further out
   * than the nearest enclosing argument list.
   */
  ghost predicate IsCandidate(t: Tree, p: Pos, q: Pos)
    requires IsPos(t, p)
  {
    && 0 < |q| <= |p| && IsPos(t, q)
    && Parent(q) == p[..|q| - 1]
    && p[|q| - 1] < Index(q)
    && NoListBelow(t, p, |q|)
  }

  predicate IsSteppedOver(t: Tree, q: Pos)
    requires IsPos(t, q) && |q| > 0
  {
    PrefixIsPos(t, q, |q| - 1);
    SteppedOver(At(t, q), InArguments(t, Parent(q)))
  }

  /** Of two candidates, the deeper one comes first, then the one further left. */
  predicate Before(a: Pos, b: Pos)
    requires |a| > 0 && |b| > 0
  {
    |a| > |b| || (|a| == |b| && Index(a) < Index(b))
  }

  /** The first candidate that is not stepped over, or none when all are. */
  ghost predicate Attaches(t: Tree, p: Pos, target: Option<Pos>)
    requires IsPos(t, p)
  {
    match target
    case Some(q) =>
      && IsCandidate(t, p, q) && !IsSteppedOver(t, q)
      && forall c :: IsCandidate(t, p, c) && Before(c, q) ==> IsSteppedOver(t, c)
    case None =>
      forall c :: IsCandidate(t, p, c) ==> IsSteppedOver(t, c)
  }

  /** Every candidate deeper than `depth` is stepped over, and so is every one at `depth` left of `next`. */
  ghost predicate PassedTo(t: Tree, p: Pos, depth: nat, next: nat)
    requires IsPos(t, p)
  {
    forall c :: IsCandidate(t, p, c) && (|c| > depth || (|c| == depth && Index(c) < next)) ==> IsSteppedOver(t, c)
  }

  method NextMeaningfulSibling(t: Tree, p: Pos) returns (target: Option<Pos>)
    requires IsPos(t, p)
    ensures Attaches(t, p, target)
  {
    var current := p;
    while |current| > 0
      invariant |current| <= |p| && current == p[..|current|]
      invariant NoListBelow(t, p, |current|)
      invariant PassedTo(t, p, |current|, 0)
      decreases |current|
    {
      var parent := Parent(current);
      PrefixIsPos(t, p, |parent|);
      assert parent == p[..|parent|];
      var inArguments := InArguments(t, parent);
      var found := ScanSiblings(t, p, parent, inArguments);
      if found.Some? {
        return found;
      }
      if inArguments {
        assert ListAt(t, p, |parent|);
        return None;
      }
      current := parent;
    }
    return None;
  }

  /** A sibling further right is a candidate, and the only one at its place. */
  lemma SiblingIsCandidate(t: Tree, p: Pos, parent: Pos, next: nat)
    requires IsPos(t, p) && |parent| < |p| && parent == p[..|parent|] && IsPos(t, parent)
    requires NoListBelow(t, p, |parent| + 1)
    requires At(t, parent).Node? && p[|parent|] < next < |At(t, parent).children|
    ensures IsCandidate(t, p, parent + [next])
    ensures IsSteppedOver(t, parent + [next])
       <==> SteppedOver(At(t, parent).children[next], InArguments(t, parent))
    ensures forall c :: IsCandidate(t, p, c) && |c| == |parent| + 1 && Index(c) == next ==> c == parent + [next]
  {
    ChildPos(t, parent, next);
    assert Parent(parent + [next]) == parent;
  }

  lemma LastSiblingPassed(t: Tree, p: Pos, parent: Pos)
    requires IsPos(t, p) && |parent| < |p| && parent == p[..|parent|] && IsPos(t, parent)
    requires At(t, parent).Node? && PassedTo(t, p, |parent| + 1, |At(t, parent).children|)
    ensures PassedTo(t, p, |parent|, 0)
  {
    forall c | IsCandidate(t, p, c) && |c| == |parent| + 1 ensures Index(c) < |At(t, parent).children| {
      ChildPos(t, parent, Index(c));
      assert c == parent + [Index(c)];
    }
  }

  /** The loop over the siblings to the right at one level. */
  method ScanSiblings(t: Tree, p: Pos, parent: Pos, inArguments: bool) returns (target: Option<Pos>)
    requires IsPos(t, p) && |parent| < |p| && parent == p[..|parent|] && IsPos(t, parent)
    requires inArguments == InArguments(t, parent)
    requires NoListBelow(t, p, |parent| + 1)
    requires PassedTo(t, p, |parent| + 1, 0)
    ensures target.Some? ==> Attaches(t, p, target)
    ensures target.None? ==> PassedTo(t, p, |parent|, 0)
  {
    PrefixIsPos(t, p, |parent|);
    var siblings := At(t, parent).children;
    var next := p[|parent|] + 1;
    while next < |siblings|
      invariant p[|parent|] < next <= |siblings|
      invariant PassedTo(t, p, |parent| + 1, next)
    {
      SiblingIsCandidate(t, p, parent, next);
      if !SteppedOver(siblings[next], inArguments) {
        return Some(parent + [next]);
      }
      next := next + 1;
    }
    LastSiblingPassed(t, p, parent);
    return None;
  }

  // --- What attachment promises ----------------------------------------------------

  lemma CandidateFollows(t: Tree, p: Pos, q: Pos)
    requires IsPos(t, p) && IsCandidate(t, p, q)
    ensures Precedes(p, q) && End(t, p) <= Start(t, q)
  {
    var k := |q| - 1;
    assert p[..k] == q[..k] && p[k] < q[k];
    assert forall i :: 0 <= i < k ==> p[i] == p[..k][i] == q[..k][i] == q[i];
    assert PartAt(p, q, k);
    PrecedesByOffset(t, p, q);
  }

  /**
   * The target starts at or after the comment's end, inside the nearest
   * argument list around the comment, and everything between the two lies in
   * something stepped over.
   */
  lemma TargetIsNextMeaningful(t: Tree, p: Pos, q: Pos, between: Pos, list: nat)
    requires IsPos(t, p) && Attaches(t, p, Some(q))
    ensures IsPos(t, q) && |q| > 0 && IsPos(t, Parent(q)) && Start(t, p) + Width(At(t, p)) <= Start(t, q)
    ensures !SteppedOver(At(t, q), At(t, Parent(q)).kind == ArgList)
    ensures list < |p| && IsPos(t, p[..list]) && At(t, p[..list]).kind == ArgList ==>
      list < |q| && q[..list] == p[..list]
    ensures IsPos(t, between) && Precedes(p, between) && Precedes(between, q) ==>
      exists c :: IsCandidate(t, p, c) && Before(c, q) && Skipped(t, c) && c <= between
  {
    CandidateFollows(t, p, q);
    PrefixIsPos(t, q, |q| - 1);
    if list < |p| && IsPos(t, p[..list]) && At(t, p[..list]).kind == ArgList {
      assert ListAt(t, p, list);
      assert list < |q|;
      assert q[..list] == Parent(q)[..list] == p[..list];
    }
    if IsPos(t, between) && Precedes(p, between) && Precedes(between, q) {
      var c := StepOf(t, p, q, between);
      assert IsSteppedOver(t, c);
      PrefixIsPos(t, c, |c| - 1);
    }
  }

  /** What stands at `c` is stepped over, as it is in an argument list or not. */
  ghost predicate Skipped(t: Tree, c: Pos) {
    |c| > 0 && IsPos(t, c) && IsPos(t, Parent(c)) && SteppedOver(At(t, c), At(t, Parent(c)).kind == ArgList)
  }

  /** And where nothing is attached, whatever follows the comment inside the argument lists around it is stepped over. */
  lemma NothingMeaningfulFollows(t: Tree, p: Pos, between: Pos)
    requires IsPos(t, p) && Attaches(t, p, None) && IsPos(t, between) && Precedes(p, between)
    requires forall list: nat :: list < |p| && IsPos(t, p[..list]) && At(t, p[..list]).kind == ArgList ==>
      list < |between| && between[..list] == p[..list]
    ensures exists c :: Skipped(t, c) && c <= between && IsCandidate(t, p, c)
  {
    var d: nat :| d < |p| && PartAt(p, between, d);
    var c := between[..d + 1];
    PrefixIsPos(t, between, d + 1);
    PrefixIsPos(t, between, d);
    assert Parent(c) == p[..d] == between[..d];
    forall n: nat | |c| <= n < |p| ensures !ListAt(t, p, n) {
      NoListParts(t, p, between, d, n);
    }
    assert IsCandidate(t, p, c);
    assert IsSteppedOver(t, c);
  }

  /** A position inside every argument list around the comment does not part from it inside one. */
  lemma NoListParts(t: Tree, p: Pos, between: Pos, d: nat, list: nat)
    requires IsPos(t, p) && PartAt(p, between, d) && d < list < |p|
    requires IsPos(t, p[..list]) && At(t, p[..list]).kind == ArgList ==>
      list < |between| && between[..list] == p[..list]
    ensures !ListAt(t, p, list)
  {
    PrefixIsPos(t, p, list);
    assert list < |between| ==> between[..list][d] == between[d] && p[..list][d] == p[d];
  }

  /** There always is an answer. */
  lemma SomethingIsTheAnswer(t: Tree, p: Pos)
    requires IsPos(t, p)
    ensures exists target :: Attaches(t, p, target)
  {
    var target := AnswerFrom(t, p, |p|);
  }

  lemma {:induction false} AnswerFrom(t: Tree, p: Pos, depth: nat) returns (target: Option<Pos>)
    requires IsPos(t, p) && depth <= |p| && NoListBelow(t, p, depth) && PassedTo(t, p, depth, 0)
    ensures Attaches(t, p, target)
    decreases depth
  {
    if depth == 0 {
      target := None;
    } else {
      PrefixIsPos(t, p, depth - 1);
      target := AnswerAt(t, p, p[..depth - 1], p[depth - 1] + 1);
      if target.None? && !ListAt(t, p, depth - 1) {
        target := AnswerFrom(t, p, depth - 1);
      }
    }
  }

  lemma {:induction false} AnswerAt(t: Tree, p: Pos, parent: Pos, next: nat) returns (target: Option<Pos>)
    requires IsPos(t, p) && |parent| < |p| && parent == p[..|parent|] && IsPos(t, parent)
    requires At(t, parent).Node? && p[|parent|] < next <= |At(t, parent).children|
    requires NoListBelow(t, p, |parent| + 1) && PassedTo(t, p, |parent| + 1, next)
    ensures target.Some? ==> Attaches(t, p, target)
    ensures target.None? ==> PassedTo(t, p, |parent|, 0)
    decreases |At(t, parent).children| - next
  {
    if next == |At(t, parent).children| {
      LastSiblingPassed(t, p, parent);
      target := None;
    } else {
      SiblingIsCandidate(t, p, parent, next);
      if IsSteppedOver(t, parent + [next]) {
        target := AnswerAt(t, p, parent, next + 1);
      } else {
        target := Some(parent + [next]);
      }
    }
  }

  /** The candidate under which a position between the comment and the target lies. */
  lemma StepOf(t: Tree, p: Pos, q: Pos, between: Pos) returns (c: Pos)
    requires IsPos(t, p) && IsCandidate(t, p, q) && IsPos(t, between)
    requires Precedes(p, between) && Precedes(between, q)
    ensures IsCandidate(t, p, c) && Before(c, q) && c <= between
  {
    var d: nat :| d < |p| && PartAt(p, between, d);
    var e: nat :| e < |between| && PartAt(between, q, e);
    assert forall i :: 0 <= i < |q| - 1 ==> q[i] == Parent(q)[i] == p[i];
    assert d >= |q| - 1;
    c := between[..d + 1];
    PrefixIsPos(t, between, d + 1);
    assert Parent(c) == p[..d];
  }

  /** Two answers to the same question are the same answer. */
  lemma AttachmentIsDetermined(t: Tree, p: Pos, a: Option<Pos>, b: Option<Pos>)
    requires IsPos(t, p) && Attaches(t, p, a) && Attaches(t, p, b)
    ensures a == b
  {
    if a.Some? && b.Some? {
      var x, y := a.value, b.value;
      assert x == p[..|x| - 1] + [Index(x)] && y == p[..|y| - 1] + [Index(y)];
      assert Before(x, y) || Before(y, x) || x == y;
    }
  }

  // --- `DESCRIPTION` files ---------------------------------------------------------

  predicate IsLine(t: Tree) {
    t.Node? && t.kind != CommentLine && t.kind != BlankLine
  }

  /** The first node at or after `from` that is neither a comment line nor a blank one. */
  function NextLine(children: seq<Tree>, from: nat): (found: Option<nat>)
    ensures found.Some? ==> from <= found.value < |children| && IsLine(children[found.value])
    ensures forall i :: from <= i < (if found.Some? then found.value else |children|) ==> !IsLine(children[i])
    decreases |children| - from
  {
    if from >= |children| then None
    else if IsLine(children[from]) then Some(from)
    else NextLine(children, from + 1)
  }

  /** The next line from `from` on, or the first line in it when it is a record. */
  function NextLineIn(siblings: seq<Tree>, from: nat): (next: Option<Pos>)
    ensures next.Some? ==> 1 <= |next.value| <= 2
  {
    match NextLine(siblings, from)
    case None => None
    case Some(i) =>
      if siblings[i].kind == Record then
        match NextLine(siblings[i].children, 0)
        case Some(j) => Some([i, j])
        case None => None
      else Some([i])
  }

  /** The line after the node at `p`; entering a record means its first line. */
  function NextDcfSiblingOf(t: Tree, p: Pos): Option<Pos>
    requires IsPos(t, p) && |p| > 0
  {
    PrefixIsPos(t, p, |p| - 1);
    match NextLineIn(At(t, Parent(p)).children, Index(p) + 1)
    case Some(q) => Some(Parent(p) + q)
    case None => None
  }

  /** A value line follows in the same field: the comment interrupts a multi-line value. */
  predicate InterruptsValue(t: Tree, line: Pos)
    requires IsPos(t, line) && |line| > 0
  {
    PrefixIsPos(t, line, |line| - 1);
    var siblings := At(t, Parent(line)).children;
    exists i :: Index(line) < i < |siblings| && siblings[i].Node? && siblings[i].kind == ValueLine
  }

  /** What a directive token at `p` in a `DESCRIPTION` attaches to. */
  function NextMeaningfulDcfSibling(t: Tree, p: Pos): Option<Pos>
    requires IsPos(t, p)
  {
    if |p| < 2 then None
    else
      PrefixIsPos(t, p, |p| - 1);
      PrefixIsPos(t, p, |p| - 2);
      var line := Parent(p);
      var outer := Parent(line);
      assert outer == p[..|p| - 2];
      if At(t, outer).kind == Field then
        if InterruptsValue(t, line) then Some(outer)
        else if |outer| == 0 then None
        else NextDcfSiblingOf(t, outer)
      else NextDcfSiblingOf(t, line)
  }

  predicate IsFirstLine(children: seq<Tree>, from: nat, i: nat) {
    from <= i < |children| && IsLine(children[i]) && NoLineIn(children, from, i)
  }

  predicate NoLineIn(children: seq<Tree>, from: nat, to: nat) {
    forall j :: from <= j < to && j < |children| ==> !IsLine(children[j])
  }

  /**
   * The target is the first line from `from` on, or the first line inside it when
   * it is a record; there is none when nothing is a line, or the first that is
   * one is a record without lines.
   */
  ghost predicate FirstLineIn(siblings: seq<Tree>, from: nat, target: Option<Pos>) {
    match target
    case Some(q) =>
      if |q| == 1 then IsFirstLine(siblings, from, q[0]) && siblings[q[0]].kind != Record
      else
        && |q| == 2 && IsFirstLine(siblings, from, q[0]) && siblings[q[0]].kind == Record
        && IsFirstLine(siblings[q[0]].children, 0, q[1])
    case None =>
      || NoLineIn(siblings, from, |siblings|)
      || exists i: nat :: IsFirstLine(siblings, from, i) && siblings[i].kind == Record
           && NoLineIn(siblings[i].children, 0, |siblings[i].children|)
  }

  /** That target among the later siblings of `from`. */
  ghost predicate FirstLineAfter(t: Tree, from: Pos, target: Option<Pos>)
    requires IsPos(t, from) && |from| > 0
  {
    PrefixIsPos(t, from, |from| - 1);
    var siblings, next, depth := At(t, Parent(from)).children, Index(from) + 1, |from| - 1;
    match target
    case Some(q) => |q| > depth && q[..depth] == Parent(from) && FirstLineIn(siblings, next, Some(q[depth..]))
    case None => FirstLineIn(siblings, next, None)
  }

  lemma FirstLineIsNext(children: seq<Tree>, from: nat)
    ensures match NextLine(children, from)
            case Some(i) => IsFirstLine(children, from, i) && forall j: nat :: IsFirstLine(children, from, j) ==> j == i
            case None => NoLineIn(children, from, |children|)
  {
  }

  lemma FirstLineInIsNext(siblings: seq<Tree>, from: nat, target: Option<Pos>)
    ensures FirstLineIn(siblings, from, target) <==> target == NextLineIn(siblings, from)
  {
    FirstLineIsNext(siblings, from);
    match NextLine(siblings, from) {
      case Some(i) =>
        FirstLineIsNext(siblings[i].children, 0);
        OneOrTwo(target);
      case None =>
    }
  }

  lemma OneOrTwo(target: Option<Pos>)
    ensures target.Some? && |target.value| == 1 ==> target.value == [target.value[0]]
    ensures target.Some? && |target.value| == 2 ==> target.value == [target.value[0], target.value[1]]
  {
  }

  lemma DcfSiblingIsFirstLine(t: Tree, from: Pos, target: Option<Pos>)
    requires IsPos(t, from) && |from| > 0
    ensures FirstLineAfter(t, from, target) <==> target == NextDcfSiblingOf(t, from)
  {
    PrefixIsPos(t, from, |from| - 1);
    var siblings, next := At(t, Parent(from)).children, Index(from) + 1;
    match target {
      case Some(q) =>
        PrefixSplits(Parent(from), NextLineIn(siblings, next), q);
        if |q| >= |from| {
          FirstLineInIsNext(siblings, next, Some(q[|from| - 1..]));
        }
      case None => FirstLineInIsNext(siblings, next, None);
    }
  }

  /** A position is the prefix followed by what was found, exactly when it starts so and goes on so. */
  lemma PrefixSplits(prefix: Pos, found: Option<Pos>, q: Pos)
    ensures found.Some? && q == prefix + found.value
       <==> |q| >= |prefix| && q[..|prefix|] == prefix && found == Some(q[|prefix|..])
  {
    if found.Some? {
      assert (prefix + found.value)[..|prefix|] == prefix;
      assert (prefix + found.value)[|prefix|..] == found.value;
    }
    if |q| >= |prefix| {
      assert q == q[..|prefix|] + q[|prefix|..];
    }
  }

  /** What a directive in a `DESCRIPTION` attaches to, told without the walk. */
  ghost predicate DcfAttaches(t: Tree, p: Pos, target: Option<Pos>)
    requires IsPos(t, p)
  {
    if |p| < 2 then target == None
    else
      PrefixIsPos(t, p, |p| - 1);
      PrefixIsPos(t, p, |p| - 2);
      var line, outer := p[..|p| - 1], p[..|p| - 2];
      if At(t, outer).kind != Field then FirstLineAfter(t, line, target)
      else if InterruptsValue(t, line) then target == Some(outer)
      else if |outer| == 0 then target == None
      else FirstLineAfter(t, outer, target)
  }

  /** The walk answers what `DcfAttaches` describes, and nothing else answers it. */
  lemma DcfAttachesIsTheWalk(t: Tree, p: Pos, target: Option<Pos>)
    requires IsPos(t, p)
    ensures DcfAttaches(t, p, target) <==> target == NextMeaningfulDcfSibling(t, p)
  {
    if |p| >= 2 {
      PrefixIsPos(t, p, |p| - 1);
      PrefixIsPos(t, p, |p| - 2);
      var line, outer := Parent(p), Parent(Parent(p));
      assert outer == p[..|p| - 2];
      DcfSiblingIsFirstLine(t, line, target);
      if |outer| > 0 {
        DcfSiblingIsFirstLine(t, outer, target);
      }
    }
  }

  /** It attaches to the field around it exactly when a value line of that field follows. */
  lemma DcfFieldIff(t: Tree, p: Pos)
    requires IsPos(t, p) && |p| >= 2 && IsPos(t, p[..|p| - 2])
    ensures var field := At(t, p[..|p| - 2]);
      NextMeaningfulDcfSibling(t, p) == Some(p[..|p| - 2]) <==>
        && field.kind == Field && field.Node?
        && exists i :: p[|p| - 2] < i < |field.children|
             && field.children[i].Node? && field.children[i].kind == ValueLine
  {
    PrefixIsPos(t, p, |p| - 1);
    PrefixIsPos(t, p, |p| - 2);
    var line, outer := Parent(p), Parent(Parent(p));
    assert outer == p[..|p| - 2];
    if At(t, outer).kind != Field {
      NotOutward(t, line);
    } else if |outer| > 0 {
      NotOutward(t, outer);
    }
  }

  lemma NotOutward(t: Tree, from: Pos)
    requires IsPos(t, from) && |from| > 0
    ensures NextDcfSiblingOf(t, from).Some? ==> |NextDcfSiblingOf(t, from).value| >= |from|
    ensures NextDcfSiblingOf(t, from) != Some(from)
  {
    PrefixIsPos(t, from, |from| - 1);
    var siblings := At(t, Parent(from)).children;
    match NextLine(siblings, Index(from) + 1) {
      case Some(i) =>
        if NextDcfSiblingOf(t, from).Some? && |NextDcfSiblingOf(t, from).value| == |from| {
          assert NextDcfSiblingOf(t, from).value[|from| - 1] > from[|from| - 1];
        }
      case None =>
    }
  }

  /** The next line is the first node that is neither a comment line nor a blank one. */
  lemma NextLineIff(children: seq<Tree>, from: nat, i: nat)
    ensures NextLine(children, from) == Some(i) <==>
      && from <= i < |children| && children[i].Node? && children[i].kind !in {CommentLine, BlankLine}
      && forall j :: from <= j < i && children[j].Node? ==> children[j].kind in {CommentLine, BlankLine}
  {
    FirstLineIsNext(children, from);
  }

  /**
   * A `DESCRIPTION` directive attaches to the field whose value it interrupts,
   * and otherwise to a line after it that is neither a comment nor blank.
   */
  lemma DcfTargetIsFieldOrLaterLine(t: Tree, p: Pos)
    requires IsPos(t, p) && NextMeaningfulDcfSibling(t, p).Some?
    ensures var q := NextMeaningfulDcfSibling(t, p).value;
      && IsPos(t, q)
      && if |q| + 2 == |p| && q == p[..|q|]
         then At(t, q).kind == Field && IsPos(t, Parent(p)) && InterruptsValue(t, Parent(p))
         else Precedes(p, q) && End(t, p) <= Start(t, q) && IsLine(At(t, q))
  {
    PrefixIsPos(t, p, |p| - 1);
    PrefixIsPos(t, p, |p| - 2);
    var line, outer := Parent(p), Parent(Parent(p));
    assert outer == p[..|p| - 2];
    if At(t, outer).kind == Field {
      if !InterruptsValue(t, line) {
        DcfSiblingFollows(t, p, outer);
      }
    } else {
      DcfSiblingFollows(t, p, line);
    }
  }

  lemma DcfSiblingFollows(t: Tree, p: Pos, from: Pos)
    requires IsPos(t, p) && 0 < |from| < |p| && from == p[..|from|] && IsPos(t, from)
    requires NextDcfSiblingOf(t, from).Some?
    ensures var q := NextDcfSiblingOf(t, from).value;
      && |q| >= |from| && q[..|from| - 1] == p[..|from| - 1] && p[|from| - 1] < q[|from| - 1]
      && IsPos(t, q) && Precedes(p, q) && End(t, p) <= Start(t, q) && IsLine(At(t, q))
  {
    PrefixIsPos(t, from, |from| - 1);
    var q := NextDcfSiblingOf(t, from).value;
    var siblings := At(t, Parent(from)).children;
    var i := NextLine(siblings, Index(from) + 1).value;
    ChildPos(t, Parent(from), i);
    if siblings[i].kind == Record {
      var j := NextLine(siblings[i].children, 0).value;
      ChildPos(t, Parent(from) + [i], j);
      assert Parent(from) + [i, j] == Parent(from) + [i] + [j];
    }
    var k := |from| - 1;
    assert p[..k] == q[..k] && p[k] < q[k];
    assert forall i :: 0 <= i < k ==> p[i] == p[..k][i] == q[..k][i] == q[i];
    assert PartAt(p, q, k);
    PrecedesByOffset(t, p, q);
  }
}
