/**
 * Tool versions of `src/config.rs`: zero-padded componentwise comparison,
 * parsing and printing.
 */
module Versions {
  import opened Common
  import Strings

  const U32_LIMIT: nat := 0x1_0000_0000

  type Component = x: int | 0 <= x < U32_LIMIT

  datatype Ordering = Less | Equal | Greater

  type Version = seq<Component>

  /** The component at `i`, a missing one reading as zero. */
  function At(v: Version, i: nat): Component {
    if i < |v| then v[i] else 0
  }

  /** `a` comes before `b`: smaller at the first padded component where they differ. */
  ghost predicate Precedes(a: Version, b: Version) {
    exists i: nat :: At(a, i) < At(b, i) && AgreeBelow(a, b, i)
  }

  ghost predicate AgreeBelow(a: Version, b: Version, i: nat) {
    forall j: nat :: j < i ==> At(a, j) == At(b, j)
  }

  /** The same version once both are padded with zeros. */
  ghost predicate SameVersion(a: Version, b: Version) {
    forall i: nat :: At(a, i) == At(b, i)
  }

  method Compare(a: Version, b: Version) returns (order: Ordering)
    ensures order == Less <==> Precedes(a, b)
    ensures order == Greater <==> Precedes(b, a)
    ensures order == Equal <==> SameVersion(a, b)
  {
    var len := if |a| >= |b| then |a| else |b|;
    for i := 0 to len
      invariant AgreeBelow(a, b, i)
    {
      var x, y := At(a, i), At(b, i);
      if x < y {
        return Less;
      } else if x > y {
        return Greater;
      }
    }
    assert forall i: nat :: At(a, i) == At(b, i);
    return Equal;
  }

  /** `Precedes` is a strict total order modulo `SameVersion`. */
  lemma OrderIsTotal(a: Version, b: Version, c: Version)
    ensures !(Precedes(a, b) && Precedes(b, a))
    ensures !(Precedes(a, b) && SameVersion(a, b))
    ensures Precedes(a, b) || Precedes(b, a) || SameVersion(a, b)
    ensures Precedes(a, b) && Precedes(b, c) ==> Precedes(a, c)
    ensures Precedes(a, b) && SameVersion(b, c) ==> Precedes(a, c)
    ensures SameVersion(a, b) && Precedes(b, c) ==> Precedes(a, c)
    ensures SameVersion(a, b) && SameVersion(b, c) ==> SameVersion(a, c)
  {
    Trichotomy(a, b);
    if Precedes(a, b) && Precedes(b, c) {
      var i: nat :| At(a, i) < At(b, i) && AgreeBelow(a, b, i);
      var k: nat :| At(b, k) < At(c, k) && AgreeBelow(b, c, k);
      var first := if i <= k then i else k;
      assert At(a, first) < At(c, first) && AgreeBelow(a, c, first);
    }
    if Precedes(a, b) && SameVersion(b, c) {
      var i: nat :| At(a, i) < At(b, i) && AgreeBelow(a, b, i);
      assert At(a, i) < At(c, i) && AgreeBelow(a, c, i);
    }
    if SameVersion(a, b) && Precedes(b, c) {
      var i: nat :| At(b, i) < At(c, i) && AgreeBelow(b, c, i);
      assert At(a, i) < At(c, i) && AgreeBelow(a, c, i);
    }
  }

  lemma Trichotomy(a: Version, b: Version)
    ensures !(Precedes(a, b) && Precedes(b, a))
    ensures !(Precedes(a, b) && SameVersion(a, b))
    ensures Precedes(a, b) || Precedes(b, a) || SameVersion(a, b)
  {
    if !SameVersion(a, b) {
      var somewhere: nat :| At(a, somewhere) != At(b, somewhere);
      var i := FirstDifference(a, b, somewhere);
      if At(a, i) < At(b, i) {
      } else {
      }
    }
  }

  lemma FirstDifference(a: Version, b: Version, at: nat) returns (i: nat)
    requires At(a, at) != At(b, at)
    ensures At(a, i) != At(b, i) && AgreeBelow(a, b, i)
  {
    if earlier: nat :| earlier < at && At(a, earlier) != At(b, earlier) {
      i := FirstDifference(a, b, earlier);
    } else {
      i := at;
    }
  }

  /** Drop trailing zero components. */
  function Stripped(v: Version): Version {
    if |v| > 0 && v[|v| - 1] == 0 then Stripped(v[..|v| - 1]) else v
  }

  lemma {:induction false} StrippedKeepsComponents(v: Version)
    ensures SameVersion(Stripped(v), v)
    ensures |Stripped(v)| > 0 ==> Stripped(v)[|Stripped(v)| - 1] != 0
  {
    if |v| > 0 && v[|v| - 1] == 0 {
      StrippedKeepsComponents(v[..|v| - 1]);
      assert forall i: nat :: At(v[..|v| - 1], i) == At(v, i);
    }
  }

  /** Versions compare equal exactly when they are the same without trailing zeros. */
  lemma EqualIffSameStripped(a: Version, b: Version)
    ensures SameVersion(a, b) <==> Stripped(a) == Stripped(b)
  {
    StrippedKeepsComponents(a);
    StrippedKeepsComponents(b);
    var x, y := Stripped(a), Stripped(b);
    if SameVersion(a, b) {
      assert forall i: nat :: At(x, i) == At(a, i) == At(b, i) == At(y, i);
      assert |x| > 0 ==> At(x, |x| - 1) == At(y, |x| - 1);
      assert |y| > 0 ==> At(x, |y| - 1) == At(y, |y| - 1);
      assert forall i | 0 <= i < |x| :: x[i] == At(x, i) == At(y, i) == y[i];
    }
  }

  // --- Parsing and printing ----------------------------------------------

  const SEPARATORS: set<char> := {'.', '-'}

  predicate IsDigit(c: char) {
    '0' <= c <= '9'
  }

  function DigitValue(c: char): nat
    requires IsDigit(c)
  {
    (c - '0') as nat
  }

  predicate AllDigits(s: string) {
    forall c <- s :: IsDigit(c)
  }

  /** The number a digit string denotes in base ten. */
  function DecimalValue(digits: string): nat
    requires AllDigits(digits)
  {
    if digits == "" then 0
    else
      DecimalValue(digits[..|digits| - 1]) * 10 + DigitValue(digits[|digits| - 1])
  }

  function ParseComponent(part: string): Option<Component> {
    if part != "" && AllDigits(part) && DecimalValue(part) < U32_LIMIT then
      Some(DecimalValue(part))
    else None
  }

  function ParseComponents(parts: seq<string>): Option<Version> {
    if |parts| == 0 then Some([])
    else
      match (ParseComponent(parts[0]), ParseComponents(parts[1..]))
      case (Some(c), Some(rest)) => Some([c] + rest)
      case _ => None
  }

  function Parse(text: string): Option<Version> {
    match ParseComponents(Strings.Split(text, SEPARATORS))
    case Some(v) => if |v| > 0 then Some(v) else None
    case None => None
  }

  function Decimal(n: nat): (digits: string)
    ensures digits != "" && AllDigits(digits) && DecimalValue(digits) == n
  {
    if n < 10 then
      assert ['0' + n as char][..0] == "";
      ['0' + n as char]
    else
      var init := Decimal(n / 10);
      var digits := init + ['0' + (n % 10) as char];
      assert digits[..|digits| - 1] == init;
      digits
  }

  /** A component is a number below two to the power 32. */
  lemma DecimalParsesIff(n: nat)
    ensures ParseComponent(Decimal(n)) == if n < 4294967296 then Some(n) else None
  {
  }

  function Decimals(v: Version): (parts: seq<string>)
    ensures |parts| == |v|
    ensures forall part <- parts, c <- part :: c !in SEPARATORS
  {
    if |v| == 0 then [] else [Decimal(v[0])] + Decimals(v[1..])
  }

  function Print(v: Version): string {
    Strings.Join(Decimals(v), '.')
  }

  lemma {:induction false} ParseDecimals(v: Version)
    ensures ParseComponents(Decimals(v)) == Some(v)
  {
    if |v| > 0 {
      ParseDecimals(v[1..]);
      assert v == [v[0]] + v[1..];
    }
  }

  /** Printing then parsing gives the version back, except for the empty one. */
  lemma PrintParseRoundTrip(v: Version)
    ensures Parse(Print(v)) == Some(v) <==> |v| > 0
    ensures |v| == 0 ==> Parse(Print(v)) == None
  {
    if |v| > 0 {
      Strings.SplitJoin(Decimals(v), '.', SEPARATORS);
      ParseDecimals(v);
    } else {
      assert Strings.Split("", SEPARATORS) == [""];
    }
  }

  lemma DigitsAre()
    ensures ParseComponent("1") == Some(1) && ParseComponent("2") == Some(2) && ParseComponent("10") == Some(10)
    ensures ParseComponent("") == None && ParseComponent("x") == None
  {
    assert "1"[..0] == "" && "2"[..0] == "";
    assert DecimalValue("1") == 1 && DecimalValue("2") == 2;
    assert "10"[..1] == "1";
    assert DecimalValue("10") == DecimalValue("1") * 10 + 0;
    assert 'x' in "x" && !IsDigit('x');
  }

  lemma SplitFirst(part: string, separator: char, rest: string)
    requires separator in SEPARATORS && forall c <- part :: c !in SEPARATORS
    ensures Strings.Split(part + [separator] + rest, SEPARATORS) == [part] + Strings.Split(rest, SEPARATORS)
  {
    Strings.SplitPrefix(part, [separator] + rest, SEPARATORS);
    assert part + [separator] + rest == part + ([separator] + rest);
    assert ([separator] + rest)[1..] == rest;
    assert part + "" == part;
  }

  lemma SplitWhole(part: string)
    requires forall c <- part :: c !in SEPARATORS
    ensures Strings.Split(part, SEPARATORS) == [part]
  {
    Strings.SplitPrefix(part, "", SEPARATORS);
    assert part + "" == part;
  }

  lemma FirstPart(part: string, rest: seq<string>)
    ensures ParseComponent(part).None? ==> ParseComponents([part] + rest) == None
    ensures ParseComponents(rest).None? ==> ParseComponents([part] + rest) == None
    ensures ParseComponent(part).Some? && ParseComponents(rest).Some? ==>
      ParseComponents([part] + rest) == Some([ParseComponent(part).value] + ParseComponents(rest).value)
  {
    assert ([part] + rest)[1..] == rest;
  }

  lemma SplitOfThree()
    ensures Strings.Split("1.10-2", SEPARATORS) == ["1", "10", "2"]
  {
    SplitWhole("2");
    SplitFirst("10", '-', "2");
    assert "10" + ['-'] + "2" == "10-2";
    SplitFirst("1", '.', "10-2");
    assert "1" + ['.'] + "10-2" == "1.10-2";
  }

  lemma PartsOfThree()
    ensures ParseComponents(["1", "10", "2"]) == Some([1, 10, 2])
  {
    DigitsAre();
    FirstPart("2", []);
    assert ["2"] + [] == ["2"];
    var none: Version, two: Version, rest: Version := [], [2], [10, 2];
    assert ParseComponents([]) == Some(none) && two + none == two;
    assert ParseComponents(["2"]) == Some(two);
    FirstPart("10", ["2"]);
    assert ["10"] + ["2"] == ["10", "2"] && [10] + two == rest;
    assert ParseComponents(["10", "2"]) == Some(rest);
    FirstPart("1", ["10", "2"]);
    assert ["1"] + ["10", "2"] == ["1", "10", "2"] && [1] + rest == [1, 10, 2];
  }

  /** Dots and dashes separate, and digits count in base ten. */
  lemma DottedVersionParses()
    ensures Parse("1.10-2") == Some([1, 10, 2])
  {
    SplitOfThree();
    PartsOfThree();
  }

  /** A missing number is an error, and so is anything but digits. */
  lemma IncompleteVersionIsAnError()
    ensures Parse("1.") == None && Parse("x-2") == None
  {
    DigitsAre();
    SplitWhole("");
    SplitFirst("1", '.', "");
    assert "1" + ['.'] + "" == "1.";
    FirstPart("", []);
    FirstPart("1", [""]);
    SplitWhole("2");
    SplitFirst("x", '-', "2");
    assert "x" + ['-'] + "2" == "x-2";
    FirstPart("x", ["2"]);
  }

  /** Every version the parser returns prints and parses back to itself. */
  lemma ParsedVersionsRoundTrip(text: string)
    ensures Parse(text).Some? ==> Parse(Print(Parse(text).value)) == Parse(text)
    ensures Parse(text).Some? <==>
            forall part <- Strings.Split(text, SEPARATORS) :: ParseComponent(part).Some?
  {
    ComponentsParseTogether(Strings.Split(text, SEPARATORS));
    if Parse(text).Some? {
      PrintParseRoundTrip(Parse(text).value);
    }
  }

  lemma {:induction false} ComponentsParseTogether(parts: seq<string>)
    ensures ParseComponents(parts).Some? <==> forall part <- parts :: ParseComponent(part).Some?
    ensures ParseComponents(parts).Some? ==> |ParseComponents(parts).value| == |parts|
  {
    if |parts| > 0 {
      ComponentsParseTogether(parts[1..]);
    }
  }
}
