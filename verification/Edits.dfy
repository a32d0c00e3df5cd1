/** Text edits of `crates/arity-parser/src/parser/reparse.rs`. */
module Edits {
  import opened Common

  // Applying edits, verifying that a chain of them yields a text without building
  // it, recovering one edit from two texts by their common ends, and mapping
  // ranges of the old text to the new one.

  type Text = string

  datatype Edit = Edit(start: nat, end: nat, insert: Text)

  predicate Fits(edit: Edit, before: Text) {
    edit.start <= edit.end <= |before|
  }

  function Apply(edit: Edit, before: Text): Text
    requires Fits(edit, before)
  {
    before[..edit.start] + edit.insert + before[edit.end..]
  }

  /** All edits in turn, each against the text its predecessors produced. */
  function ApplyAll(before: Text, edits: seq<Edit>): Option<Text>
    decreases |edits|
  {
    if |edits| == 0 then Some(before)
    else if Fits(edits[0], before) then ApplyAll(Apply(edits[0], before), edits[1..])
    else None
  }

  /** Whether applying the edit yields `target`, decided by comparing the three spans in place. */
  predicate Produces(edit: Edit, before: Text, target: Text) {
    && Fits(edit, before)
    && |target| == |before| - (edit.end - edit.start) + |edit.insert|
    && var tail := edit.start + |edit.insert|;
       && before[..edit.start] == target[..edit.start]
       && target[edit.start..tail] == edit.insert
       && before[edit.end..] == target[tail..]
  }

  lemma ProducesIffApplies(edit: Edit, before: Text, target: Text)
    ensures Produces(edit, before, target) <==> Fits(edit, before) && Apply(edit, before) == target
  {
    if Produces(edit, before, target) {
      var tail := edit.start + |edit.insert|;
      assert target == target[..edit.start] + target[edit.start..tail] + target[tail..];
    } else if Fits(edit, before) {
      var result, tail := Apply(edit, before), edit.start + |edit.insert|;
      assert result[..edit.start] == before[..edit.start];
      assert result[edit.start..tail] == edit.insert;
      assert result[tail..] == before[edit.end..];
    }
  }

  lemma {:induction false} ApplyAllLast(before: Text, edits: seq<Edit>)
    requires |edits| > 0
    ensures var init := ApplyAll(before, edits[..|edits| - 1]);
            var last := edits[|edits| - 1];
      ApplyAll(before, edits)
        == if init.Some? && Fits(last, init.value) then Some(Apply(last, init.value)) else None
    decreases |edits|
  {
    if |edits| > 1 && Fits(edits[0], before) {
      ApplyAllLast(Apply(edits[0], before), edits[1..]);
      assert edits[1..][..|edits| - 2] == edits[..|edits| - 1][1..];
    } else if |edits| == 1 {
      assert edits[..0] == [];
      assert edits[1..] == [];
    }
  }

  /** One edit replaces its span if it has one in the text; several are applied in turn. */
  lemma {:induction false} AppliedInTurn(before: Text, edit: Edit, edits: seq<Edit>, more: seq<Edit>)
    ensures ApplyAll(before, []) == Some(before)
    ensures ApplyAll(before, [edit]) ==
      if edit.start <= edit.end <= |before| then Some(before[..edit.start] + edit.insert + before[edit.end..]) else None
    ensures ApplyAll(before, edits + more) ==
      match ApplyAll(before, edits) case Some(after) => ApplyAll(after, more) case None => None
    decreases |edits|
  {
    assert [edit][1..] == [];
    if |edits| == 0 {
      assert edits + more == more;
    } else {
      assert (edits + more)[1..] == edits[1..] + more;
      if Fits(edits[0], before) {
        AppliedInTurn(Apply(edits[0], before), edit, edits[1..], more);
      }
    }
  }

  method EditsProduce(before: Text, edits: seq<Edit>, target: Text) returns (produced: bool)
    ensures produced <==> ApplyAll(before, edits) == Some(target)
  {
    if |edits| == 0 {
      return before == target;
    }
    var last, init := edits[|edits| - 1], edits[..|edits| - 1];
    var text := before;
    for i := 0 to |init|
      invariant ApplyAll(before, init) == ApplyAll(text, init[i..])
    {
      assert init[i..][0] == init[i] && init[i..][1..] == init[i + 1..];
      if !Fits(init[i], text) {
        ApplyAllLast(before, edits);
        return false;
      }
      text := Apply(init[i], text);
    }
    ApplyAllLast(before, edits);
    ProducesIffApplies(last, text, target);
    produced := Produces(last, text, target);
  }

  // --- Recovering one edit from two texts ------------------------------------

  /** How far the texts agree from the front, when they do up to `n`. */
  function PrefixFrom(a: Text, b: Text, n: nat): (length: nat)
    requires n <= |a| && n <= |b|
    ensures n <= length <= |a| && length <= |b|
    ensures forall i :: n <= i < length ==> a[i] == b[i]
    ensures length < |a| && length < |b| ==> a[length] != b[length]
    decreases |a| - n
  {
    if n < |a| && n < |b| && a[n] == b[n] then PrefixFrom(a, b, n + 1) else n
  }

  function FromEnd(text: Text, i: nat): char
    requires i < |text|
  {
    text[|text| - 1 - i]
  }

  /** How far they agree from the back, looking at no more than `limit` characters. */
  function SuffixFrom(a: Text, b: Text, n: nat, limit: nat): (length: nat)
    requires n <= limit <= |a| && limit <= |b|
    ensures n <= length <= limit
    ensures forall i :: n <= i < length ==> FromEnd(a, i) == FromEnd(b, i)
    ensures length < limit ==> FromEnd(a, length) != FromEnd(b, length)
    decreases limit - n
  {
    if n < limit && FromEnd(a, n) == FromEnd(b, n) then SuffixFrom(a, b, n + 1, limit) else n
  }

  function SuffixLimit(before: Text, after: Text, prefix: nat): nat
    requires prefix <= |before| && prefix <= |after|
  {
    if |before| <= |after| then |before| - prefix else |after| - prefix
  }

  /** Strip the common prefix, then the common suffix of what is left. */
  function Diff(before: Text, after: Text): (edit: Edit)
    ensures Fits(edit, before)
  {
    var prefix := PrefixFrom(before, after, 0);
    var suffix := SuffixFrom(before, after, 0, SuffixLimit(before, after, prefix));
    Edit(prefix, |before| - suffix, after[prefix..|after| - suffix])
  }

  method DiffEdit(before: Text, after: Text) returns (edit: Edit)
    ensures edit == Diff(before, after)
  {
    var prefix := CountPrefix(before, after);
    var suffix := CountSuffix(before, after, SuffixLimit(before, after, prefix));
    edit := Edit(prefix, |before| - suffix, after[prefix..|after| - suffix]);
  }

  method CountPrefix(before: Text, after: Text) returns (prefix: nat)
    ensures prefix == PrefixFrom(before, after, 0)
  {
    prefix := 0;
    while prefix < |before| && prefix < |after| && before[prefix] == after[prefix]
      invariant prefix <= |before| && prefix <= |after|
      invariant PrefixFrom(before, after, 0) == PrefixFrom(before, after, prefix)
    {
      prefix := prefix + 1;
    }
  }

  method CountSuffix(before: Text, after: Text, limit: nat) returns (suffix: nat)
    requires limit <= |before| && limit <= |after|
    ensures suffix == SuffixFrom(before, after, 0, limit)
  {
    suffix := 0;
    while suffix < limit && before[|before| - 1 - suffix] == after[|after| - 1 - suffix]
      invariant suffix <= limit
      invariant SuffixFrom(before, after, 0, limit) == SuffixFrom(before, after, suffix, limit)
    {
      suffix := suffix + 1;
    }
  }

  lemma EndsAgree(a: Text, b: Text, n: nat)
    requires n <= |a| && n <= |b| && forall i :: 0 <= i < n ==> FromEnd(a, i) == FromEnd(b, i)
    ensures a[|a| - n..] == b[|b| - n..]
  {
    var x, y := a[|a| - n..], b[|b| - n..];
    forall i | 0 <= i < n ensures x[i] == y[i] {
      var fromEnd := n - 1 - i;
      assert x[i] == FromEnd(a, fromEnd) && y[i] == FromEnd(b, fromEnd);
    }
  }

  /** The recovered edit transforms one text into the other. */
  lemma DiffTransforms(before: Text, after: Text)
    ensures Fits(Diff(before, after), before) && Apply(Diff(before, after), before) == after
  {
    var prefix := PrefixFrom(before, after, 0);
    var suffix := SuffixFrom(before, after, 0, SuffixLimit(before, after, prefix));
    EndsAgree(before, after, suffix);
    CommonEndsMeet(before, after, prefix, suffix);
  }

  /** The rest of one text between the ends it has in common with another makes up the whole. */
  lemma CommonEndsMeet(before: Text, after: Text, prefix: nat, suffix: nat)
    requires prefix + suffix <= |before| && prefix + suffix <= |after|
    requires forall i :: 0 <= i < prefix ==> before[i] == after[i]
    requires before[|before| - suffix..] == after[|after| - suffix..]
    ensures before[..prefix] + after[prefix..|after| - suffix] + before[|before| - suffix..] == after
  {
    assert before[..prefix] == after[..prefix];
    ThreeParts(after, prefix, |after| - suffix);
  }

  lemma ThreeParts(text: Text, i: nat, j: nat)
    requires i <= j <= |text|
    ensures text == text[..i] + text[i..j] + text[j..]
  {
  }

  /** It is tight: the removed and the inserted text neither start nor end with the same character. */
  lemma DiffIsTight(before: Text, after: Text)
    ensures var edit := Diff(before, after);
      edit.start < edit.end <= |before| && edit.insert != "" ==>
        && before[edit.start] != edit.insert[0]
        && before[edit.end - 1] != edit.insert[|edit.insert| - 1]
  {
    var edit := Diff(before, after);
    var suffix := |before| - edit.end;
    if edit.start < edit.end && edit.insert != "" {
      assert edit.insert[0] == after[edit.start];
      assert edit.insert[|edit.insert| - 1] == FromEnd(after, suffix) != FromEnd(before, suffix);
    }
  }

  lemma PrefixIsLongest(a: Text, b: Text, n: nat)
    requires n <= |a| && n <= |b| && a[..n] == b[..n]
    ensures n <= PrefixFrom(a, b, 0)
  {
    forall i | 0 <= i < n ensures a[i] == b[i] {
      assert a[..n][i] == b[..n][i];
    }
  }

  lemma SuffixIsLongest(a: Text, b: Text, n: nat, limit: nat)
    requires n <= limit <= |a| && limit <= |b| && a[|a| - n..] == b[|b| - n..]
    ensures n <= SuffixFrom(a, b, 0, limit)
  {
    forall i | 0 <= i < n ensures FromEnd(a, i) == FromEnd(b, i) {
      assert a[|a| - n..][n - 1 - i] == b[|b| - n..][n - 1 - i];
    }
  }

  /** No single edit between the two texts removes or inserts less than the recovered one. */
  lemma DiffIsShortest(before: Text, after: Text, edit: Edit)
    requires Fits(edit, before) && Apply(edit, before) == after
    ensures var found := Diff(before, after);
      found.end - found.start <= edit.end - edit.start && |found.insert| <= |edit.insert|
  {
    var prefix, kept := PrefixFrom(before, after, 0), |before| - edit.end;
    var limit := SuffixLimit(before, after, prefix);
    assert before[..edit.start] == after[..edit.start];
    PrefixIsLongest(before, after, edit.start);
    assert before[|before| - kept..] == after[|after| - kept..];
    if kept <= limit {
      SuffixIsLongest(before, after, kept, limit);
    } else {
      ShorterEndsAgree(before, after, kept, limit);
      SuffixIsLongest(before, after, limit, limit);
    }
  }

  lemma ShorterEndsAgree(a: Text, b: Text, n: nat, m: nat)
    requires m <= n <= |a| && n <= |b| && a[|a| - n..] == b[|b| - n..]
    ensures a[|a| - m..] == b[|b| - m..]
  {
    assert a[|a| - m..] == a[|a| - n..][n - m..] && b[|b| - m..] == b[|b| - n..][n - m..];
  }

  // --- Mapping ranges through edits ------------------------------------------

  function MapRange(range: Range, edit: Edit): Option<Range> {
    if range.end <= edit.start then Some(range)
    else if range.start >= edit.end && edit.start <= edit.end && range.start <= range.end then
      Some(Range(
        range.start - (edit.end - edit.start) + |edit.insert|,
        range.end - (edit.end - edit.start) + |edit.insert|))
    else None
  }

  function MapRangeThrough(range: Range, edits: seq<Edit>): Option<Range>
    decreases |edits|
  {
    if |edits| == 0 then Some(range)
    else
      match MapRange(range, edits[0])
      case Some(mapped) => MapRangeThrough(mapped, edits[1..])
      case None => None
  }

  predicate Within(range: Range, text: Text) {
    range.start <= range.end <= |text|
  }

  function Slice(text: Text, range: Range): Text
    requires Within(range, text)
  {
    text[range.start..range.end]
  }

  lemma MapKeepsText(before: Text, edit: Edit, range: Range)
    requires Fits(edit, before) && Within(range, before) && MapRange(range, edit).Some?
    ensures var mapped := MapRange(range, edit).value;
      Within(mapped, Apply(edit, before)) && Slice(Apply(edit, before), mapped) == Slice(before, range)
  {
    var next, mapped := Apply(edit, before), MapRange(range, edit).value;
    var shift := mapped.start - range.start;
    forall i | range.start <= i < range.end ensures next[i + shift] == before[i] {
      if range.end > edit.start {
        assert next[i + shift] == before[edit.end..][i - edit.end];
      }
    }
    forall i | 0 <= i < range.end - range.start ensures Slice(next, mapped)[i] == Slice(before, range)[i] {
      assert next[range.start + i + shift] == before[range.start + i];
    }
  }

  /** A range that survives a verified chain of edits still covers exactly the same text. */
  lemma {:induction false} MappedRangeKeepsItsText(before: Text, edits: seq<Edit>, target: Text, range: Range)
    requires ApplyAll(before, edits) == Some(target)
    requires Within(range, before)
    requires MapRangeThrough(range, edits).Some?
    ensures var mapped := MapRangeThrough(range, edits).value;
      Within(mapped, target) && Slice(target, mapped) == Slice(before, range)
    decreases |edits|
  {
    if |edits| > 0 {
      var next := Apply(edits[0], before);
      var mapped := MapRange(range, edits[0]).value;
      MapKeepsText(before, edits[0], range);
      MappedRangeKeepsItsText(next, edits[1..], target, mapped);
    }
  }

  /** A range is mapped through one edit after the other, and given up as soon as one of them gives it up. */
  lemma {:induction false} MappedInTurn(range: Range, edit: Edit, edits: seq<Edit>, more: seq<Edit>)
    ensures MapRangeThrough(range, []) == Some(range)
    ensures MapRangeThrough(range, [edit]) == MapRange(range, edit)
    ensures MapRangeThrough(range, edits + more) ==
      match MapRangeThrough(range, edits) case Some(mapped) => MapRangeThrough(mapped, more) case None => None
    decreases |edits|
  {
    assert [edit][1..] == [];
    if |edits| == 0 {
      assert edits + more == more;
    } else {
      assert (edits + more)[1..] == edits[1..] + more;
      match MapRange(range, edits[0]) {
        case Some(mapped) => MappedInTurn(mapped, edit, edits[1..], more);
        case None =>
      }
    }
  }

  /** A range is given up exactly when the replaced text reaches into it. */
  lemma MappedUnlessTouched(range: Range, edit: Edit)
    requires range.start <= range.end && edit.start <= edit.end
    ensures MapRange(range, edit).None? <==> edit.start < range.end && range.start < edit.end
  {
  }
}
