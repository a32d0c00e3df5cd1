/** Splitting and joining text, as `str::split` and `join` do, and comparing it. */
module Strings {
  // Splitting what was joined gives the parts back as long as no part holds a
  // separator, which is what reading a printed version or a written path back
  // comes down to.

  /** Split at every separator; a string without separators is one part. */
  function Split(s: string, separators: set<char>): (parts: seq<string>)
    ensures |parts| >= 1
    ensures forall part <- parts, c <- part :: c !in separators
  {
    if s == "" then [""]
    else
      var rest := Split(s[1..], separators);
      if s[0] in separators then [""] + rest
      else [[s[0]] + rest[0]] + rest[1..]
  }

  function Join(parts: seq<string>, separator: char): string {
    if |parts| == 0 then ""
    else if |parts| == 1 then parts[0]
    else parts[0] + [separator] + Join(parts[1..], separator)
  }

  /** A part without separators is absorbed whole by the first piece of the rest. */
  lemma {:induction false} SplitPrefix(part: string, rest: string, separators: set<char>)
    requires forall c <- part :: c !in separators
    ensures Split(part + rest, separators)
         == [part + Split(rest, separators)[0]] + Split(rest, separators)[1..]
  {
    if part == "" {
      assert part + rest == rest;
      assert part + Split(rest, separators)[0] == Split(rest, separators)[0];
    } else {
      SplitPrefix(part[1..], rest, separators);
      assert (part + rest)[1..] == part[1..] + rest;
      assert part == [part[0]] + part[1..];
      assert (part + rest)[0] == part[0] && part[0] !in separators;
      assert [part[0]] + (part[1..] + Split(rest, separators)[0]) == part + Split(rest, separators)[0];
    }
  }

  /** Joining separator-free parts and splitting again gives the parts back. */
  lemma {:induction false} SplitJoin(parts: seq<string>, separator: char, separators: set<char>)
    requires |parts| >= 1
    requires separator in separators
    requires forall part <- parts, c <- part :: c !in separators
    ensures Split(Join(parts, separator), separators) == parts
  {
    if |parts| == 1 {
      SplitPrefix(parts[0], "", separators);
      assert parts[0] + "" == parts[0];
    } else {
      var tail := Join(parts[1..], separator);
      SplitJoin(parts[1..], separator, separators);
      SplitPrefix(parts[0], [separator] + tail, separators);
      assert parts[0] + [separator] + tail == parts[0] + ([separator] + tail);
      assert ([separator] + tail)[1..] == tail;
      assert Split([separator] + tail, separators) == [""] + parts[1..];
      assert parts[0] + "" == parts[0];
    }
  }

  // --- Order ------------------------------------------------------------------

  predicate TextLe(a: string, b: string) {
    || |a| == 0
    || (|b| > 0 && (a[0] < b[0] || (a[0] == b[0] && TextLe(a[1..], b[1..]))))
  }

  /** Text goes by its first differing character; where there is none, the shorter comes first. */
  lemma {:induction false} TextLeIff(a: string, b: string)
    ensures TextLe(a, b) <==> a <= b || exists i: nat :: FirstLower(a, b, i)
  {
    if |a| > 0 && |b| > 0 && a[0] == b[0] {
      TextLeIff(a[1..], b[1..]);
      assert a <= b <==> a[1..] <= b[1..];
      forall i: nat ensures FirstLower(a, b, i + 1) <==> FirstLower(a[1..], b[1..], i) {
        assert i < |a[1..]| && i < |b[1..]| ==> (a[..i + 1] == b[..i + 1] <==> a[1..][..i] == b[1..][..i]) by {
          if i < |a[1..]| && i < |b[1..]| {
            assert a[..i + 1] == [a[0]] + a[1..][..i] && b[..i + 1] == [b[0]] + b[1..][..i];
          }
        }
      }
      if i: nat :| FirstLower(a, b, i) {
        assert FirstLower(a[1..], b[1..], i - 1);
      }
    } else if |a| > 0 && |b| > 0 {
      assert a[..0] == b[..0];
      assert a[0] < b[0] ==> FirstLower(a, b, 0);
      forall i: nat | i > 0 && i < |a| && i < |b| ensures a[..i] != b[..i] {
        assert a[..i][0] != b[..i][0];
      }
    }
  }

  predicate FirstLower(a: string, b: string, i: nat) {
    i < |a| && i < |b| && a[..i] == b[..i] && a[i] < b[i]
  }

  lemma {:induction false} TextLeIsTotal(a: string, b: string)
    ensures TextLe(a, b) || TextLe(b, a)
  {
    if |a| > 0 && |b| > 0 && a[0] == b[0] {
      TextLeIsTotal(a[1..], b[1..]);
    }
  }

  lemma {:induction false} TextLeIsTransitive(a: string, b: string, c: string)
    requires TextLe(a, b) && TextLe(b, c)
    ensures TextLe(a, c)
  {
    if |a| > 0 && a[0] == b[0] == c[0] {
      TextLeIsTransitive(a[1..], b[1..], c[1..]);
    }
  }
}
