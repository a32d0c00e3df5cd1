/** What the comments of a file hide, told from the comments themselves. */
module DirectiveEffect {
  import opened Common
  import opened Diagnostics
  import opened Suppression

  // `Suppression` places directives, closes regions and filters through indices.
  // Here the findings that come out are told from the comments that went in, by
  // the verb, the tool and the scope of each.

  /** The comment is an `on` written with this tool's prefix. */
  predicate TurnsOn(c: Comment, tool: Tool) {
    c.parsed.Recognized? && c.parsed.verb == On && c.parsed.tool == tool
  }

  /**
   * The range starts after the `off` at `i` and ends before the first `on` of its
   * prefix to come, or before the file does if there is none.
   */
  ghost predicate IsOff(comments: seq<Comment>, i: nat, range: Range, endOfFile: nat)
    requires i < |comments| && comments[i].parsed.Recognized?
  {
    var tool := comments[i].parsed.tool;
    && comments[i].range.end <= range.start
    && (forall j: nat :: IsFirstOn(comments, i, j, tool) ==> range.end <= comments[j].range.start)
    && ((forall j :: i < j < |comments| ==> !TurnsOn(comments[j], tool)) ==> range.end <= endOfFile)
  }

  ghost predicate IsFirstOn(comments: seq<Comment>, i: nat, j: nat, tool: Tool) {
    i < j < |comments| && TurnsOn(comments[j], tool) && forall h :: i < h < j ==> !TurnsOn(comments[h], tool)
  }

  /** The directive names the rule; or it is a blanket one, and the finding is on no directive, well formed or not. */
  ghost predicate Concerns(comments: seq<Comment>, scope: RuleScope, rule: string, range: Range) {
    || scope == Rule(rule)
    || (scope == All && forall c :: c in comments && c.range.Contains(range) ==> c.parsed.NotDirective?)
  }

  /** The comment at `i` tells the linter to drop findings of `rule` at `range`. */
  ghost predicate HiddenBy(comments: seq<Comment>, i: nat, rule: string, range: Range, endOfFile: nat) {
    && i < |comments| && comments[i].parsed.Recognized?
    && (comments[i].parsed.tool == Both || comments[i].parsed.tool == Lint)
    && Concerns(comments, comments[i].parsed.scope, rule, range)
    && match comments[i].parsed.verb
       case SkipFile => true
       case Skip => comments[i].target.Some? && comments[i].target.value.Contains(range)
       case Off => IsOff(comments, i, range, endOfFile)
       case On => false
  }

  // --- Where each comment's directive is -------------------------------------------

  function Position(comments: seq<Comment>, i: nat): nat
    requires i <= |comments|
  {
    |Placed(comments[..i])|
  }

  lemma {:induction false} PlacedAppend(a: seq<Comment>, b: seq<Comment>)
    ensures Placed(a + b) == Placed(a) + Placed(b)
    decreases |b|
  {
    if |b| == 0 {
      assert a + b == a;
    } else {
      assert (a + b)[..|a + b| - 1] == a + b[..|b| - 1];
      PlacedAppend(a, b[..|b| - 1]);
    }
  }

  lemma {:induction false} PlacedAt(comments: seq<Comment>, i: nat)
    requires i < |comments| && comments[i].parsed.Recognized?
    ensures var k := Position(comments, i); k < |Placed(comments)| && Placed(comments)[k] == Place(comments[i])
  {
    assert comments == comments[..i] + ([comments[i]] + comments[i + 1..]);
    PlacedAppend(comments[..i], [comments[i]] + comments[i + 1..]);
    PlacedAppend([comments[i]], comments[i + 1..]);
    assert [comments[i]][..0] == [];
  }

  lemma PositionsIncrease(comments: seq<Comment>, i: nat, j: nat)
    requires i < j <= |comments|
    ensures Position(comments, i) <= Position(comments, j)
    ensures comments[i].parsed.Recognized? ==> Position(comments, i) < Position(comments, j)
  {
    assert comments[..j] == comments[..i] + comments[i..j];
    PlacedAppend(comments[..i], comments[i..j]);
    if comments[i].parsed.Recognized? {
      PlacedAt(comments[i..j], 0);
    }
  }

  lemma {:induction false} HasPosition(comments: seq<Comment>, k: nat) returns (i: nat)
    requires k < |Placed(comments)|
    ensures i < |comments| && comments[i].parsed.Recognized? && Position(comments, i) == k
  {
    var init := comments[..|comments| - 1];
    if k < |Placed(init)| {
      i := HasPosition(init, k);
      assert comments[..i] == init[..i];
    } else {
      i := |comments| - 1;
    }
  }

  lemma {:induction false} BrokenAre(comments: seq<Comment>, range: Range)
    ensures range in Broken(comments) <==> exists c :: c in comments && c.parsed.Malformed? && c.range == range
  {
    if |comments| > 0 {
      var init, last := comments[..|comments| - 1], comments[|comments| - 1];
      assert comments == init + [last];
      BrokenAre(init, range);
    }
  }

  // --- What it hides -----------------------------------------------------------------

  /** Closing the regions leaves tool, verb, scope and comment alone. */
  lemma ClosedKeeps(ds: seq<Directive>, k: nat, endOfFile: nat)
    requires k < |ds|
    ensures var d := ClosedAt(ds, k, endOfFile);
      d.tool == ds[k].tool && d.verb == ds[k].verb && d.scope == ds[k].scope && d.comment == ds[k].comment
    ensures ds[k].verb != Off ==> ClosedAt(ds, k, endOfFile).coverage == ds[k].coverage
  {
  }

  lemma {:induction false} OnDirectiveIff(comments: seq<Comment>, ds: seq<Directive>, range: Range, endOfFile: nat)
    requires Closed(Placed(comments), ds, endOfFile)
    ensures OnDirectiveComment(ds, Broken(comments), range)
       <==> exists c :: c in comments && !c.parsed.NotDirective? && c.range.Contains(range)
  {
    var placed := Placed(comments);
    forall k: nat | k < |ds|
      ensures exists c :: c in comments && c.parsed.Recognized? && c.range == ds[k].comment
    {
      var i := HasPosition(comments, k);
      PlacedAt(comments, i);
      ClosedKeeps(placed, k, endOfFile);
      assert comments[i] in comments;
    }
    forall c | c in comments && c.parsed.Recognized? ensures exists d :: d in ds && d.comment == c.range {
      var i :| 0 <= i < |comments| && comments[i] == c;
      var k := Position(comments, i);
      PlacedAt(comments, i);
      ClosedKeeps(placed, k, endOfFile);
      assert ds[k] in ds;
    }
    forall r: Range
      ensures r in Broken(comments) <==> exists c :: c in comments && c.parsed.Malformed? && c.range == r
    {
      BrokenAre(comments, r);
    }
  }

  /** The first `on` among the directives is that of the first `on` among the comments. */
  lemma {:induction false} FirstOnIs(comments: seq<Comment>, i: nat, j: nat, tool: Tool)
    requires i < |comments| && comments[i].parsed.Recognized? && IsFirstOn(comments, i, j, tool)
    ensures FirstOn(Placed(comments), Position(comments, i) + 1, tool) == Some(Position(comments, j))
  {
    var placed, first := Placed(comments), FirstOn(Placed(comments), Position(comments, i) + 1, tool);
    PlacedAt(comments, j);
    PositionsIncrease(comments, i, j);
    assert IsOn(placed[Position(comments, j)], tool);
    var h := HasPosition(comments, first.value);
    PlacedAt(comments, h);
    if h < i {
      PositionsIncrease(comments, h, i);
    } else if j < h {
      PositionsIncrease(comments, j, h);
    }
  }

  lemma {:induction false} NoOnIs(comments: seq<Comment>, i: nat, tool: Tool)
    requires i < |comments| && comments[i].parsed.Recognized?
    requires forall j :: i < j < |comments| ==> !TurnsOn(comments[j], tool)
    ensures FirstOn(Placed(comments), Position(comments, i) + 1, tool) == None
  {
    var first := FirstOn(Placed(comments), Position(comments, i) + 1, tool);
    if first.Some? {
      var h := HasPosition(comments, first.value);
      PlacedAt(comments, h);
      if h < i {
        PositionsIncrease(comments, h, i);
      }
    }
  }

  lemma {:induction false} SomeFirstOn(comments: seq<Comment>, i: nat, from: nat, tool: Tool) returns (j: nat)
    requires i < from && forall h :: i < h < from && h < |comments| ==> !TurnsOn(comments[h], tool)
    requires exists h :: i < h < |comments| && TurnsOn(comments[h], tool)
    ensures IsFirstOn(comments, i, j, tool)
    decreases |comments| - from
  {
    if TurnsOn(comments[from], tool) {
      j := from;
    } else {
      j := SomeFirstOn(comments, i, from + 1, tool);
    }
  }

  lemma {:induction false} OffCoversIff(comments: seq<Comment>, i: nat, range: Range, endOfFile: nat)
    requires i < |comments| && comments[i].parsed.Recognized? && comments[i].parsed.verb == Off && range.Ordered()
    requires Position(comments, i) < |Placed(comments)|
    ensures var coverage := ClosedAt(Placed(comments), Position(comments, i), endOfFile).coverage;
      IsOff(comments, i, range, endOfFile) <==> coverage.Covered? && coverage.range.Contains(range)
  {
    var tool := comments[i].parsed.tool;
    PlacedAt(comments, i);
    if exists h :: i < h < |comments| && TurnsOn(comments[h], tool) {
      var j := SomeFirstOn(comments, i, i + 1, tool);
      FirstOnIs(comments, i, j, tool);
      PlacedAt(comments, j);
      forall h: nat | IsFirstOn(comments, i, h, tool) ensures h == j {
      }
    } else {
      NoOnIs(comments, i, tool);
    }
  }

  /** A directive hides what its comment says it hides. */
  lemma {:induction false} HidesIff(
      comments: seq<Comment>, i: nat, ds: seq<Directive>, rule: string, range: Range, endOfFile: nat)
    requires Closed(Placed(comments), ds, endOfFile) && range.Ordered()
    requires i < |comments| && comments[i].parsed.Recognized?
    ensures HiddenBy(comments, i, rule, range, endOfFile)
       <==> Hides(ds, Broken(comments), Position(comments, i), rule, range)
  {
    var k := Position(comments, i);
    PlacedAt(comments, i);
    ClosedKeeps(Placed(comments), k, endOfFile);
    assert ds[k] == ClosedAt(Placed(comments), k, endOfFile);
    OnDirectiveIff(comments, ds, range, endOfFile);
    if comments[i].parsed.verb == Off {
      OffCoversIff(comments, i, range, endOfFile);
    }
  }

  /**
   * What comes out of a file's comments: a finding is dropped exactly when some
   * comment tells the linter to, by skipping the file, skipping what the finding
   * is in, or turning it off around the finding.
   */
  lemma {:induction false} DroppedIff(
      comments: seq<Comment>, ds: seq<Directive>, findings: seq<Diagnostic>, f: Diagnostic, endOfFile: nat)
    requires Closed(Placed(comments), ds, endOfFile) && f in findings && f.range.Ordered()
    ensures f !in Kept(ds, Broken(comments), findings)
       <==> exists i: nat :: HiddenBy(comments, i, f.rule, f.range, endOfFile)
  {
    if Suppressed(ds, Broken(comments), f.rule, f.range) {
      var k: nat :| k < |ds| && Hides(ds, Broken(comments), k, f.rule, f.range);
      var i := HasPosition(comments, k);
      HidesIff(comments, i, ds, f.rule, f.range, endOfFile);
    } else {
      forall i: nat ensures !HiddenBy(comments, i, f.rule, f.range, endOfFile) {
        if i < |comments| && comments[i].parsed.Recognized? {
          HidesIff(comments, i, ds, f.rule, f.range, endOfFile);
          PlacedAt(comments, i);
        }
      }
    }
  }

  /** A directive counts as used exactly when some finding is dropped on its account. */
  lemma {:induction false} UsedIff(
      comments: seq<Comment>, i: nat, ds: seq<Directive>, findings: seq<Diagnostic>, used: seq<bool>, endOfFile: nat)
    requires Closed(Placed(comments), ds, endOfFile) && forall f :: f in findings ==> f.range.Ordered()
    requires UsedExactly(ds, Broken(comments), findings, used)
    requires i < |comments| && comments[i].parsed.Recognized?
    ensures Position(comments, i) < |used|
    ensures used[Position(comments, i)] <==>
      exists f :: f in findings && HiddenBy(comments, i, f.rule, f.range, endOfFile)
  {
    PlacedAt(comments, i);
    forall f | f in findings
      ensures HiddenBy(comments, i, f.rule, f.range, endOfFile)
         <==> Hides(ds, Broken(comments), Position(comments, i), f.rule, f.range)
    {
      HidesIff(comments, i, ds, f.rule, f.range, endOfFile);
    }
  }

  /** Build the map from the comments of a file and filter its findings through it. */
  method FilterFile(comments: seq<Comment>, endOfFile: nat, findings: seq<Diagnostic>)
    returns (kept: seq<Diagnostic>, used: seq<bool>)
    requires forall f :: f in findings ==> f.range.Ordered()
    ensures forall f :: f in kept <==>
      f in findings && !exists i: nat :: HiddenBy(comments, i, f.rule, f.range, endOfFile)
    ensures forall i: nat :: i < |comments| && comments[i].parsed.Recognized? ==>
      && Position(comments, i) < |used|
      && (used[Position(comments, i)] <==>
            exists f :: f in findings && HiddenBy(comments, i, f.rule, f.range, endOfFile))
  {
    var suppressions := new SuppressionMap.Build(comments, endOfFile);
    kept, used := suppressions.Filter(findings);
    forall f | f in findings
      ensures f in kept <==> !exists i: nat :: HiddenBy(comments, i, f.rule, f.range, endOfFile)
    {
      DroppedIff(comments, suppressions.directives, findings, f, endOfFile);
    }
    forall i: nat | i < |comments| && comments[i].parsed.Recognized?
      ensures Position(comments, i) < |used|
      ensures used[Position(comments, i)] <==>
        exists f :: f in findings && HiddenBy(comments, i, f.rule, f.range, endOfFile)
    {
      UsedIff(comments, i, suppressions.directives, findings, used, endOfFile);
    }
  }
}
