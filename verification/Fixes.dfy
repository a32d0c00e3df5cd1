/** Fix application of `src/linter/fix.rs`: choosing compatible edits and splicing them. */
module Fixes {
  import opened Common
  import opened StableSort

  datatype Applicability = Safe | Unsafe

  /** Replace the bytes `start..end` by `content`; nothing forces `start <= end`. */
  datatype Fix = Fix(content: string, start: nat, end: nat, applicability: Applicability)

  datatype FixOutcome = FixOutcome(output: string, applied: nat, skippedConflicts: nat)

  predicate SpanLe(f: Fix, g: Fix) {
    f.start < g.start || (f.start == g.start && f.end <= g.end)
  }

  lemma SpanLeIsPreorder()
    ensures TotalPreorder(SpanLe)
  {
  }

  predicate IsEligible(f: Fix, includeUnsafe: bool) {
    includeUnsafe || f.applicability == Safe
  }

  function Eligible(fixes: seq<Fix>, includeUnsafe: bool): (eligible: seq<Fix>)
    ensures forall f :: f in eligible <==> f in fixes && IsEligible(f, includeUnsafe)
  {
    if |fixes| == 0 then []
    else (if IsEligible(fixes[0], includeUnsafe) then [fixes[0]] else [])
         + Eligible(fixes[1..], includeUnsafe)
  }

  predicate WellFormed(f: Fix, length: nat) {
    f.start <= f.end <= length
  }

  /** `f` overlaps an accepted fix that comes no later: it starts earlier, or there too and ends no later. */
  predicate PreemptedBy(f: Fix, accepted: Fix) {
    && accepted.start < f.end && f.start < accepted.end
    && (accepted.start < f.start || (accepted.start == f.start && accepted.end <= f.end))
  }

  /** The greedy left-to-right choice: keep what starts at or after `lastEnd`. */
  function Accept(fixes: seq<Fix>, length: nat, lastEnd: nat): seq<Fix> {
    if |fixes| == 0 then []
    else if WellFormed(fixes[0], length) && lastEnd <= fixes[0].start then
      [fixes[0]] + Accept(fixes[1..], length, fixes[0].end)
    else Accept(fixes[1..], length, lastEnd)
  }

  /** Well-formed spans at or after `from`, each starting where its predecessor ended or later. */
  predicate Ordered(fixes: seq<Fix>, length: nat, from: nat) {
    if |fixes| == 0 then from <= length
    else
      && from <= fixes[0].start
      && WellFormed(fixes[0], length)
      && Ordered(fixes[1..], length, fixes[0].end)
  }

  /** The gaps of `source` from `from` on, with each fix's content between them. */
  function Assemble(source: string, from: nat, fixes: seq<Fix>): string
    requires Ordered(fixes, |source|, from)
    decreases fixes
  {
    if |fixes| == 0 then source[from..]
    else
      source[from..fixes[0].start] + fixes[0].content
      + Assemble(source, fixes[0].end, fixes[1..])
  }

  function Accepted(source: string, fixes: seq<Fix>, includeUnsafe: bool): (accepted: seq<Fix>)
    ensures Ordered(accepted, |source|, 0)
  {
    var sorted := Sort(SpanLe, Eligible(fixes, includeUnsafe));
    AcceptIsOrdered(sorted, |source|, 0);
    Accept(sorted, |source|, 0)
  }

  function Outcome(source: string, fixes: seq<Fix>, includeUnsafe: bool): FixOutcome {
    var accepted := Accepted(source, fixes, includeUnsafe);
    AcceptIsShorter(Sort(SpanLe, Eligible(fixes, includeUnsafe)), |source|, 0);
    MultisetLength(Sort(SpanLe, Eligible(fixes, includeUnsafe)), Eligible(fixes, includeUnsafe));
    FixOutcome(
      Assemble(source, 0, accepted),
      |accepted|,
      |Eligible(fixes, includeUnsafe)| - |accepted|)
  }

  lemma {:induction false} AcceptIsOrdered(fixes: seq<Fix>, length: nat, lastEnd: nat)
    requires lastEnd <= length
    ensures Ordered(Accept(fixes, length, lastEnd), length, lastEnd)
  {
    if |fixes| > 0 {
      if WellFormed(fixes[0], length) && lastEnd <= fixes[0].start {
        AcceptIsOrdered(fixes[1..], length, fixes[0].end);
      } else {
        AcceptIsOrdered(fixes[1..], length, lastEnd);
      }
    }
  }

  lemma AcceptIsShorter(fixes: seq<Fix>, length: nat, lastEnd: nat)
    ensures |Accept(fixes, length, lastEnd)| <= |fixes|
  {
  }

  lemma MultisetLength<T>(s: seq<T>, t: seq<T>)
    requires multiset(s) == multiset(t)
    ensures |s| == |t|
  {
    assert |multiset(s)| == |s| && |multiset(t)| == |t|;
  }

  /** The engine: filter, sort, sweep left to right, splice right to left. */
  method ApplyFixes(source: string, fixes: seq<Fix>, includeUnsafe: bool)
    returns (outcome: FixOutcome)
    ensures outcome == Outcome(source, fixes, includeUnsafe)
  {
    var eligible := Sort(SpanLe, Eligible(fixes, includeUnsafe));
    MultisetLength(eligible, Eligible(fixes, includeUnsafe));
    var accepted, skippedConflicts := Sweep(eligible, |source|);
    assert accepted == Accepted(source, fixes, includeUnsafe);
    var output := Splice(source, accepted);
    outcome := FixOutcome(output, |accepted|, skippedConflicts);
  }

  /** One step of the sweep moves the next fix to the accepted ones, or drops it. */
  lemma SweepStep(eligible: seq<Fix>, length: nat, accepted: seq<Fix>, i: nat, lastEnd: nat)
    requires i < |eligible|
    requires Accept(eligible, length, 0) == accepted + Accept(eligible[i..], length, lastEnd)
    ensures var fix := eligible[i];
      Accept(eligible, length, 0)
      == if WellFormed(fix, length) && lastEnd <= fix.start
         then accepted + [fix] + Accept(eligible[i + 1..], length, fix.end)
         else accepted + Accept(eligible[i + 1..], length, lastEnd)
  {
    assert eligible[i..][0] == eligible[i] && eligible[i..][1..] == eligible[i + 1..];
    Regroup(accepted, eligible[i], Accept(eligible[i + 1..], length, eligible[i].end));
  }

  lemma Regroup<T>(s: seq<T>, x: T, t: seq<T>)
    ensures s + ([x] + t) == s + [x] + t
  {
  }

  /** The left-to-right sweep over the sorted fixes. */
  method Sweep(eligible: seq<Fix>, length: nat) returns (accepted: seq<Fix>, skippedConflicts: nat)
    ensures accepted == Accept(eligible, length, 0)
    ensures |accepted| + skippedConflicts == |eligible|
  {
    accepted, skippedConflicts := [], 0;
    var lastEnd: nat := 0;
    assert eligible[0..] == eligible && [] + Accept(eligible, length, 0) == Accept(eligible, length, 0);
    for i := 0 to |eligible|
      invariant |accepted| + skippedConflicts == i
      invariant 0 <= lastEnd <= length
      invariant |accepted| == 0 ==> lastEnd == 0
      invariant Accept(eligible, length, 0) == accepted + Accept(eligible[i..], length, lastEnd)
    {
      var fix := eligible[i];
      SweepStep(eligible, length, accepted, i, lastEnd);
      if fix.start > fix.end || fix.end > length {
        skippedConflicts := skippedConflicts + 1;
      } else if |accepted| > 0 && fix.start < lastEnd {
        skippedConflicts := skippedConflicts + 1;
      } else {
        lastEnd := fix.end;
        accepted := accepted + [fix];
      }
    }
    assert accepted + [] == accepted;
  }

  /** Right-to-left splicing, so that earlier offsets stay valid. */
  method Splice(source: string, accepted: seq<Fix>) returns (output: string)
    requires Ordered(accepted, |source|, 0)
    ensures output == Assemble(source, 0, accepted)
  {
    output := source;
    var i := |accepted|;
    OrderedSuffix(accepted, |source|, 0, i);
    assert source[..GapStart(accepted, i)] + source[GapStart(accepted, i)..] == source;
    while i > 0
      invariant 0 <= i <= |accepted|
      invariant Ordered(accepted[i..], |source|, GapStart(accepted, i))
      invariant GapStart(accepted, i) <= |source|
      invariant output == source[..GapStart(accepted, i)]
                       + Assemble(source, GapStart(accepted, i), accepted[i..])
    {
      i := i - 1;
      var fix := accepted[i];
      OrderedSuffix(accepted, |source|, 0, i);
      assert accepted[i..][0] == fix && accepted[i..][1..] == accepted[i + 1..];
      SpliceOne(source, output, GapStart(accepted, i), accepted[i..]);
      output := output[..fix.start] + fix.content + output[fix.end..];
    }
    assert accepted[0..] == accepted;
  }

  /** Replacing the leftmost remaining span leaves exactly the text before its gap untouched. */
  lemma SpliceOne(source: string, output: string, gap: nat, fixes: seq<Fix>)
    requires |fixes| > 0 && Ordered(fixes, |source|, gap)
    requires output == source[..fixes[0].end] + Assemble(source, fixes[0].end, fixes[1..])
    ensures output[..fixes[0].start] + fixes[0].content + output[fixes[0].end..]
         == source[..gap] + Assemble(source, gap, fixes)
  {
    var fix := fixes[0];
    var tail := Assemble(source, fix.end, fixes[1..]);
    assert output[..fix.start] == source[..gap] + source[gap..fix.start];
    assert output[fix.end..] == tail;
    assert source[..gap] + source[gap..fix.start] + fix.content + tail
        == source[..gap] + (source[gap..fix.start] + fix.content + tail);
  }

  /** Where the untouched text before `fixes[i]` begins. */
  function GapStart(fixes: seq<Fix>, i: nat): nat
    requires i <= |fixes|
  {
    if i == 0 then 0 else fixes[i - 1].end
  }

  lemma {:induction false} OrderedSuffix(fixes: seq<Fix>, length: nat, from: nat, i: nat)
    requires i <= |fixes| && Ordered(fixes, length, from)
    ensures Ordered(fixes[i..], length, if i == 0 then from else fixes[i - 1].end)
    ensures i > 0 ==> WellFormed(fixes[i - 1], length) && from <= fixes[i - 1].start
  {
    if i == 0 {
      assert fixes[0..] == fixes;
    } else {
      OrderedSuffix(fixes[1..], length, fixes[0].end, i - 1);
      assert fixes[1..][i - 1..] == fixes[i..];
    }
  }

  // --- What the choice guarantees ------------------------------------------

  /**
   * Accepted spans are well formed, ordered and disjoint, all come from the
   * fixes that may be applied, and nothing compatible was dropped: a well-formed
   * one that was not accepted overlaps one that was and comes no later.
   */
  lemma AcceptedIsMaximal(source: string, fixes: seq<Fix>, includeUnsafe: bool, rejected: Fix)
    ensures var accepted := Accepted(source, fixes, includeUnsafe);
      && (forall f <- accepted ::
            f in fixes && (includeUnsafe || f.applicability == Safe) && f.start <= f.end <= |source|)
      && (forall i, j :: 0 <= i < j < |accepted| ==> accepted[i].end <= accepted[j].start)
    ensures rejected in fixes && (includeUnsafe || rejected.applicability == Safe)
         && rejected.start <= rejected.end <= |source| && rejected !in Accepted(source, fixes, includeUnsafe)
         ==> exists f <- Accepted(source, fixes, includeUnsafe) ::
               && f.start < rejected.end && rejected.start < f.end
               && (f.start < rejected.start || (f.start == rejected.start && f.end <= rejected.end))
  {
    var sorted := Sort(SpanLe, Eligible(fixes, includeUnsafe));
    SortedAreEligible(fixes, includeUnsafe);
    AcceptedComeFromInput(sorted, |source|, 0);
    OrderedIsDisjoint(Accepted(source, fixes, includeUnsafe), |source|, 0);
    if rejected in sorted && WellFormed(rejected, |source|)
       && rejected !in Accepted(source, fixes, includeUnsafe) {
      RejectedIsPreempted(source, fixes, includeUnsafe, rejected);
    }
  }

  lemma SortedAreEligible(fixes: seq<Fix>, includeUnsafe: bool)
    ensures var sorted := Sort(SpanLe, Eligible(fixes, includeUnsafe));
      && Sorted(SpanLe, sorted)
      && forall f :: f in sorted <==> f in fixes && IsEligible(f, includeUnsafe)
  {
    var eligible := Eligible(fixes, includeUnsafe);
    SpanLeIsPreorder();
    SortIsStable(SpanLe, eligible);
    assert forall f :: f in Sort(SpanLe, eligible) <==> f in multiset(Sort(SpanLe, eligible));
    assert forall f :: f in eligible <==> f in multiset(eligible);
  }

  lemma RejectedIsPreempted(source: string, fixes: seq<Fix>, includeUnsafe: bool, rejected: Fix)
    requires rejected in Sort(SpanLe, Eligible(fixes, includeUnsafe)) && WellFormed(rejected, |source|)
    requires rejected !in Accepted(source, fixes, includeUnsafe)
    ensures exists f <- Accepted(source, fixes, includeUnsafe) :: PreemptedBy(rejected, f)
  {
    var sorted := Sort(SpanLe, Eligible(fixes, includeUnsafe));
    SortedAreEligible(fixes, includeUnsafe);
    var earlier := OverlapsAccepted(sorted, |source|, rejected);
    assert earlier in Accepted(source, fixes, includeUnsafe);
  }

  lemma OverlapsAccepted(sorted: seq<Fix>, length: nat, rejected: Fix) returns (earlier: Fix)
    requires Sorted(SpanLe, sorted) && rejected in sorted && WellFormed(rejected, length)
    requires rejected !in Accept(sorted, length, 0)
    ensures earlier in Accept(sorted, length, 0) && PreemptedBy(rejected, earlier)
  {
    RejectedOverlaps(sorted, length, [], 0, rejected);
    earlier :| earlier in [] + Accept(sorted, length, 0) && PreemptedBy(rejected, earlier);
  }

  lemma {:induction false} AcceptedComeFromInput(fixes: seq<Fix>, length: nat, lastEnd: nat)
    ensures forall f <- Accept(fixes, length, lastEnd) :: f in fixes && WellFormed(f, length)
  {
    if |fixes| > 0 {
      AcceptedComeFromInput(fixes[1..], length, fixes[0].end);
      AcceptedComeFromInput(fixes[1..], length, lastEnd);
    }
  }

  lemma {:induction false} OrderedIsDisjoint(fixes: seq<Fix>, length: nat, from: nat)
    requires Ordered(fixes, length, from)
    ensures forall f <- fixes :: from <= f.start <= f.end <= length
    ensures forall i, j :: 0 <= i < j < |fixes| ==> fixes[i].end <= fixes[j].start
  {
    if |fixes| > 0 {
      OrderedIsDisjoint(fixes[1..], length, fixes[0].end);
      assert fixes == [fixes[0]] + fixes[1..];
    }
  }

  /** `before` was accepted so far; `lastEnd` is where its last span ends. */
  lemma {:induction false} RejectedOverlaps(
      fixes: seq<Fix>, length: nat, before: seq<Fix>, lastEnd: nat, rejected: Fix)
    requires Sorted(SpanLe, fixes)
    requires if |before| == 0 then lastEnd == 0 else before[|before| - 1].end == lastEnd
    requires |before| > 0 ==> forall f <- fixes :: SpanLe(before[|before| - 1], f)
    requires |before| > 0 ==> before[|before| - 1].start <= before[|before| - 1].end
    requires rejected in fixes && WellFormed(rejected, length)
    requires rejected !in Accept(fixes, length, lastEnd)
    ensures exists f <- before + Accept(fixes, length, lastEnd) :: PreemptedBy(rejected, f)
  {
    var first, rest := fixes[0], fixes[1..];
    assert forall f <- rest :: SpanLe(first, f);
    if WellFormed(first, length) && lastEnd <= first.start {
      RejectedOverlaps(rest, length, before + [first], first.end, rejected);
      assert (before + [first]) + Accept(rest, length, first.end)
          == before + Accept(fixes, length, lastEnd);
    } else if first == rejected {
      var last := before[|before| - 1];
      assert last in before + Accept(fixes, length, lastEnd);
      assert PreemptedBy(rejected, last);
    } else {
      assert forall f <- rest :: f in fixes;
      RejectedOverlaps(rest, length, before, lastEnd, rejected);
    }
  }

  function SpanTotal(fixes: seq<Fix>): int {
    if |fixes| == 0 then 0 else fixes[0].end - fixes[0].start + SpanTotal(fixes[1..])
  }

  function ContentTotal(fixes: seq<Fix>): nat {
    if |fixes| == 0 then 0 else |fixes[0].content| + ContentTotal(fixes[1..])
  }

  /** Every byte of the output is an untouched source byte or a replacement byte. */
  lemma {:induction false} AssembleLength(source: string, from: nat, fixes: seq<Fix>)
    requires Ordered(fixes, |source|, from)
    ensures |Assemble(source, from, fixes)| == |source| - from - SpanTotal(fixes) + ContentTotal(fixes)
    decreases fixes
  {
    if |fixes| > 0 {
      AssembleLength(source, fixes[0].end, fixes[1..]);
    }
  }

  /** Applied and skipped fixes account for every eligible one, and length is conserved. */
  lemma OutcomeIsAccounted(source: string, fixes: seq<Fix>, includeUnsafe: bool)
    ensures var outcome := Outcome(source, fixes, includeUnsafe);
      && outcome.applied + outcome.skippedConflicts == |Eligible(fixes, includeUnsafe)|
      && |outcome.output| == |source|
           - SpanTotal(Accepted(source, fixes, includeUnsafe))
           + ContentTotal(Accepted(source, fixes, includeUnsafe))
      && (outcome.applied == 0 ==> outcome.output == source)
  {
    AssembleLength(source, 0, Accepted(source, fixes, includeUnsafe));
  }

  /** Something is applied exactly when some fix that may be applied is well formed. */
  lemma AppliesIffSomethingFits(source: string, fixes: seq<Fix>, includeUnsafe: bool)
    ensures Outcome(source, fixes, includeUnsafe).applied > 0
       <==> exists f <- fixes :: (includeUnsafe || f.applicability == Safe) && f.start <= f.end <= |source|
  {
    var accepted := Accepted(source, fixes, includeUnsafe);
    if |accepted| > 0 {
      AcceptedIsMaximal(source, fixes, includeUnsafe, accepted[0]);
      assert accepted[0] in accepted;
    }
    if f :| f in fixes && IsEligible(f, includeUnsafe) && WellFormed(f, |source|) {
      AcceptedIsMaximal(source, fixes, includeUnsafe, f);
    }
  }

  // --- Independence of the input order -------------------------------------

  function Spans(fixes: seq<Fix>): (spans: seq<Range>)
    ensures |spans| == |fixes|
    ensures forall i :: 0 <= i < |fixes| ==> spans[i] == Range(fixes[i].start, fixes[i].end)
  {
    if |fixes| == 0 then []
    else [Range(fixes[0].start, fixes[0].end)] + Spans(fixes[1..])
  }

  /** Fixes that replace the same span agree on what to put there. */
  ghost predicate SpansDecideContent(fixes: seq<Fix>, includeUnsafe: bool) {
    forall f <- Eligible(fixes, includeUnsafe), g <- Eligible(fixes, includeUnsafe) ::
      f.start == g.start && f.end == g.end ==> f.content == g.content
  }

  /**
   * The accepted spans do not depend on the order the fixes arrive in, and
   * neither does the output when equal spans carry equal contents.
   */
  lemma OrderOfFixesDoesNotMatter(source: string, fixes: seq<Fix>, shuffled: seq<Fix>, includeUnsafe: bool)
    requires multiset(fixes) == multiset(shuffled)
    ensures Spans(Accepted(source, fixes, includeUnsafe)) == Spans(Accepted(source, shuffled, includeUnsafe))
    ensures SpansDecideContent(fixes, includeUnsafe)
        ==> Outcome(source, fixes, includeUnsafe) == Outcome(source, shuffled, includeUnsafe)
  {
    EligiblePermutes(fixes, shuffled, includeUnsafe);
    MultisetLength(Eligible(fixes, includeUnsafe), Eligible(shuffled, includeUnsafe));
    var s, t := SortedPermutations(Eligible(fixes, includeUnsafe), Eligible(shuffled, includeUnsafe));
    SortedSpansAgree(s, t);
    AcceptDependsOnSpans(s, t, |source|, 0);
    if SpansDecideContent(fixes, includeUnsafe) {
      ContentsAgree(Eligible(fixes, includeUnsafe), s, t);
      AcceptDependsOnContent(s, t, |source|, 0);
      AssembleDependsOnContent(source, 0,
        Accepted(source, fixes, includeUnsafe), Accepted(source, shuffled, includeUnsafe));
    }
  }

  /** Two arrangements with the same spans have the same contents, if spans decide them. */
  lemma ContentsAgree(e: seq<Fix>, s: seq<Fix>, t: seq<Fix>)
    requires |s| == |t| && Spans(s) == Spans(t)
    requires forall f :: f in s || f in t ==> f in e
    requires forall f <- e, g <- e :: f.start == g.start && f.end == g.end ==> f.content == g.content
    ensures forall i :: 0 <= i < |s| ==> s[i].content == t[i].content
  {
    forall i | 0 <= i < |s| ensures s[i].content == t[i].content {
      assert s[i] in e && t[i] in e;
      assert Spans(s)[i] == Spans(t)[i];
    }
  }

  lemma SortedPermutations(e: seq<Fix>, e': seq<Fix>) returns (s: seq<Fix>, t: seq<Fix>)
    requires multiset(e) == multiset(e')
    ensures s == Sort(SpanLe, e) && t == Sort(SpanLe, e')
    ensures Sorted(SpanLe, s) && Sorted(SpanLe, t)
    ensures multiset(s) == multiset(t) == multiset(e) && |s| == |t|
    ensures forall f :: f in s || f in t ==> f in e
  {
    s, t := Sort(SpanLe, e), Sort(SpanLe, e');
    MultisetLength(s, t);
    SpanLeIsPreorder();
    SortIsStable(SpanLe, e);
    SortIsStable(SpanLe, e');
    forall f | f in s || f in t ensures f in e {
      assert f in multiset(s) || f in multiset(t);
      assert f in multiset(e);
    }
  }

  lemma {:induction false} EligiblePermutes(fixes: seq<Fix>, shuffled: seq<Fix>, includeUnsafe: bool)
    requires multiset(fixes) == multiset(shuffled)
    ensures multiset(Eligible(fixes, includeUnsafe)) == multiset(Eligible(shuffled, includeUnsafe))
  {
    forall f ensures multiset(Eligible(fixes, includeUnsafe))[f] == multiset(Eligible(shuffled, includeUnsafe))[f] {
      EligibleCount(fixes, includeUnsafe, f);
      EligibleCount(shuffled, includeUnsafe, f);
    }
  }

  lemma {:induction false} EligibleCount(fixes: seq<Fix>, includeUnsafe: bool, f: Fix)
    ensures multiset(Eligible(fixes, includeUnsafe))[f]
         == if IsEligible(f, includeUnsafe) then multiset(fixes)[f] else 0
  {
    if |fixes| > 0 {
      EligibleCount(fixes[1..], includeUnsafe, f);
      assert fixes == [fixes[0]] + fixes[1..];
    }
  }

  lemma {:induction false} SortedSpansAgree(s: seq<Fix>, t: seq<Fix>)
    requires multiset(s) == multiset(t) && Sorted(SpanLe, s) && Sorted(SpanLe, t)
    ensures |s| == |t| && Spans(s) == Spans(t)
  {
    MultisetLength(s, t);
    forall i | 0 <= i < |s| ensures Spans(s)[i] == Spans(t)[i] {
      RankDecidesSpan(s, t, i);
      RankDecidesSpan(t, s, i);
    }
  }

  /** In sorted permutations the `i`-th span of one is at most the `i`-th of the other. */
  lemma RankDecidesSpan(s: seq<Fix>, t: seq<Fix>, i: nat)
    requires multiset(s) == multiset(t) && Sorted(SpanLe, s) && Sorted(SpanLe, t)
    requires i < |s| && i < |t|
    ensures SpanLe(s[i], t[i])
  {
    if !SpanLe(s[i], t[i]) {
      forall f ensures multiset(t[..i + 1])[f] <= multiset(s[..i])[f] {
        UpToTheRankIsBelow(s, t, i, f);
      }
      SubMultisetIsSmaller(multiset(t[..i + 1]), multiset(s[..i]));
      assert false;
    }
  }

  /** If `t[i]` came before `s[i]`, the fixes up to it would all lie among the first `i` of `s`. */
  lemma UpToTheRankIsBelow(s: seq<Fix>, t: seq<Fix>, i: nat, f: Fix)
    requires multiset(s) == multiset(t) && Sorted(SpanLe, s) && Sorted(SpanLe, t)
    requires i < |s| && i < |t| && !SpanLe(s[i], t[i])
    ensures multiset(t[..i + 1])[f] <= multiset(s[..i])[f]
  {
    assert t == t[..i + 1] + t[i + 1..];
    assert s == s[..i] + s[i..];
    assert multiset(t) == multiset(t[..i + 1]) + multiset(t[i + 1..]);
    assert multiset(s) == multiset(s[..i]) + multiset(s[i..]);
    if f in t[..i + 1] {
      assert SpanLe(f, t[i]);
      assert forall g <- s[i..] :: SpanLe(s[i], g);
      assert f !in s[i..];
      assert f !in multiset(s[i..]);
      assert multiset(s)[f] == multiset(s[..i])[f] + multiset(s[i..])[f];
      assert multiset(t)[f] == multiset(t[..i + 1])[f] + multiset(t[i + 1..])[f];
    }
  }

  lemma SubMultisetIsSmaller<T>(a: multiset<T>, b: multiset<T>)
    requires a <= b
    ensures |a| <= |b|
  {
    assert b == a + (b - a);
  }

  lemma {:induction false} AcceptDependsOnSpans(s: seq<Fix>, t: seq<Fix>, length: nat, lastEnd: nat)
    requires |s| == |t| && Spans(s) == Spans(t)
    ensures Spans(Accept(s, length, lastEnd)) == Spans(Accept(t, length, lastEnd))
    ensures |Accept(s, length, lastEnd)| == |Accept(t, length, lastEnd)|
  {
    if |s| > 0 {
      assert Spans(s)[0] == Spans(t)[0] && Spans(s)[1..] == Spans(t)[1..];
      AcceptDependsOnSpans(s[1..], t[1..], length, s[0].end);
      AcceptDependsOnSpans(s[1..], t[1..], length, lastEnd);
    }
  }

  ghost predicate SameEdits(s: seq<Fix>, t: seq<Fix>) {
    && |s| == |t|
    && forall i :: 0 <= i < |s| ==>
         s[i].start == t[i].start && s[i].end == t[i].end && s[i].content == t[i].content
  }

  lemma {:induction false} AcceptDependsOnContent(s: seq<Fix>, t: seq<Fix>, length: nat, lastEnd: nat)
    requires Spans(s) == Spans(t) && |s| == |t|
    requires forall i :: 0 <= i < |s| ==> s[i].content == t[i].content
    ensures SameEdits(Accept(s, length, lastEnd), Accept(t, length, lastEnd))
  {
    if |s| > 0 {
      assert Spans(s)[0] == Spans(t)[0] && Spans(s)[1..] == Spans(t)[1..];
      AcceptDependsOnContent(s[1..], t[1..], length, s[0].end);
      AcceptDependsOnContent(s[1..], t[1..], length, lastEnd);
    }
  }

  lemma {:induction false} AssembleDependsOnContent(source: string, from: nat, s: seq<Fix>, t: seq<Fix>)
    requires SameEdits(s, t)
    requires Ordered(s, |source|, from) && Ordered(t, |source|, from)
    ensures Assemble(source, from, s) == Assemble(source, from, t)
    decreases s
  {
    if |s| > 0 {
      AssembleDependsOnContent(source, s[0].end, s[1..], t[1..]);
    }
  }
}
