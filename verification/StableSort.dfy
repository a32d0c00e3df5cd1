/** What the Rust `sort_by`, `sort_by_key` and `dedup` calls promise. */
module StableSort {
  ghost predicate TotalPreorder<T(!new)>(le: (T, T) -> bool) {
    && (forall x, y :: le(x, y) || le(y, x))
    && (forall x, y, z :: le(x, y) && le(y, z) ==> le(x, z))
  }

  ghost predicate Sorted<T>(le: (T, T) -> bool, s: seq<T>) {
    forall i, j :: 0 <= i < j < |s| ==> le(s[i], s[j])
  }

  /** The elements of `s` that tie with `x`, in order. */
  ghost function Ties<T>(le: (T, T) -> bool, x: T, s: seq<T>): seq<T> {
    if |s| == 0 then []
    else (if le(x, s[0]) && le(s[0], x) then [s[0]] else []) + Ties(le, x, s[1..])
  }

  /** `t` is `s` in order, with ties kept in the order they had in `s`. */
  ghost predicate StablySorted<T(!new)>(le: (T, T) -> bool, s: seq<T>, t: seq<T>) {
    Sorted(le, t) && forall x :: Ties(le, x, t) == Ties(le, x, s)
  }

  function Insert<T>(le: (T, T) -> bool, x: T, s: seq<T>): (t: seq<T>)
    ensures multiset(t) == multiset(s) + multiset{x}
  {
    if |s| == 0 || le(x, s[0]) then [x] + s
    else
      assert s == [s[0]] + s[1..];
      [s[0]] + Insert(le, x, s[1..])
  }

  function Sort<T>(le: (T, T) -> bool, s: seq<T>): (t: seq<T>)
    ensures multiset(t) == multiset(s)
  {
    if |s| == 0 then []
    else
      assert s == [s[0]] + s[1..];
      Insert(le, s[0], Sort(le, s[1..]))
  }

  lemma {:induction false} InsertKeepsOrder<T(!new)>(le: (T, T) -> bool, x: T, s: seq<T>)
    requires TotalPreorder(le) && Sorted(le, s)
    ensures Sorted(le, Insert(le, x, s))
  {
    if |s| > 0 && !le(x, s[0]) {
      InsertKeepsOrder(le, x, s[1..]);
      var rest := Insert(le, x, s[1..]);
      forall k | 0 <= k < |rest| ensures le(s[0], rest[k]) {
        assert rest[k] in multiset(rest);
        assert rest[k] == x || rest[k] in multiset(s[1..]);
      }
    }
  }

  /** An element moves only past ones it does not tie with. */
  lemma {:induction false} InsertKeepsTies<T(!new)>(le: (T, T) -> bool, x: T, s: seq<T>, y: T)
    requires TotalPreorder(le)
    ensures Ties(le, y, Insert(le, x, s)) == Ties(le, y, [x] + s)
  {
    assert ([x] + s)[1..] == s;
    if |s| > 0 && !le(x, s[0]) {
      InsertKeepsTies(le, x, s[1..], y);
      assert ([x] + s[1..])[1..] == s[1..];
      assert Insert(le, x, s)[1..] == Insert(le, x, s[1..]);
    }
  }

  /** `Sort` is the stable sort. */
  lemma {:induction false} SortIsStable<T(!new)>(le: (T, T) -> bool, s: seq<T>)
    requires TotalPreorder(le)
    ensures StablySorted(le, s, Sort(le, s))
  {
    if |s| > 0 {
      var rest := Sort(le, s[1..]);
      SortIsStable(le, s[1..]);
      InsertKeepsOrder(le, s[0], rest);
      forall x ensures Ties(le, x, Sort(le, s)) == Ties(le, x, s) {
        InsertKeepsTies(le, s[0], rest, x);
        assert ([s[0]] + rest)[1..] == rest;
      }
    }
  }

  lemma {:induction false} TiesAre<T(!new)>(le: (T, T) -> bool, x: T, s: seq<T>, y: T)
    ensures y in Ties(le, x, s) <==> y in s && le(x, y) && le(y, x)
  {
    if |s| > 0 {
      TiesAre(le, x, s[1..], y);
      assert s == [s[0]] + s[1..];
    }
  }

  lemma StableSortKeepsMembers<T(!new)>(le: (T, T) -> bool, s: seq<T>, t: seq<T>, x: T)
    requires TotalPreorder(le) && StablySorted(le, s, t)
    ensures x in t <==> x in s
  {
    TiesAre(le, x, s, x);
    TiesAre(le, x, t, x);
    assert le(x, x);
  }

  /** There is one stable ordering of a sequence. */
  lemma {:induction false} StablySortedIsUnique<T(!new)>(
      le: (T, T) -> bool, s: seq<T>, t: seq<T>, u: seq<T>)
    requires TotalPreorder(le)
    requires StablySorted(le, s, t) && StablySorted(le, s, u)
    ensures t == u
    decreases |t|
  {
    assert |t| > 0 ==> Ties(le, t[0], t) != [];
    assert |u| > 0 ==> Ties(le, u[0], u) != [];
    if |t| > 0 {
      TiesFound(le, t[0], u);
      TiesFound(le, u[0], t);
      assert Ties(le, t[0], t)[0] == t[0];
      assert le(t[0], u[0]) && le(u[0], t[0]);
      assert Ties(le, t[0], u)[0] == u[0];
      forall x ensures Ties(le, x, t[1..]) == Ties(le, x, u[1..]) {
        assert Ties(le, x, t) == Ties(le, x, u);
        var head := if le(x, t[0]) && le(t[0], x) then [t[0]] else [];
        assert Ties(le, x, t)[|head|..] == Ties(le, x, t[1..]);
        assert Ties(le, x, u)[|head|..] == Ties(le, x, u[1..]);
      }
      StablySortedIsUnique(le, t[1..], t[1..], u[1..]);
    }
  }

  lemma {:induction false} TiesFound<T(!new)>(le: (T, T) -> bool, x: T, s: seq<T>)
    requires TotalPreorder(le) && Sorted(le, s)
    requires Ties(le, x, s) != []
    ensures |s| > 0 && le(s[0], x)
  {
    if !(le(x, s[0]) && le(s[0], x)) {
      TiesFound(le, x, s[1..]);
      assert le(s[0], s[1]);
    }
  }

  /** `Vec::dedup`: drop what equals its predecessor. */
  function Dedup<T(==,!new)>(s: seq<T>): (t: seq<T>)
    ensures forall h :: h in t <==> h in s
    ensures |s| > 0 ==> |t| > 0 && t[0] == s[0]
  {
    if |s| == 0 then []
    else
      var rest := Dedup(s[1..]);
      if |rest| > 0 && rest[0] == s[0] then rest else [s[0]] + rest
  }

  /** What is left has no equal neighbours, and is in order if it was. */
  lemma {:induction false} DedupLeavesNoNeighbours<T(!new)>(le: (T, T) -> bool, s: seq<T>)
    ensures forall i :: 0 < i < |Dedup(s)| ==> Dedup(s)[i - 1] != Dedup(s)[i]
    ensures Sorted(le, s) ==> Sorted(le, Dedup(s))
  {
    if |s| > 0 {
      DedupLeavesNoNeighbours(le, s[1..]);
      var rest := Dedup(s[1..]);
      if Sorted(le, s) {
        forall k | 0 <= k < |rest| ensures le(s[0], rest[k]) {
          assert rest[k] in rest;
          var j :| 0 <= j < |s[1..]| && s[1..][j] == rest[k];
          assert s[j + 1] == rest[k];
        }
      }
    }
  }
}
