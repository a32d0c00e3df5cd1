/** `expand_dir_renames` of `src/incremental.rs`: fanning folder renames out over known paths. */
module Renames {
  import opened Common
  import opened Paths

  datatype Rename = Rename(from: Path, to: Path)

  /** The batch as the client sent it, normalized and without no-ops. */
  function Pairs(cwd: Path, renames: seq<Rename>): (pairs: seq<Rename>)
    ensures forall r :: r in pairs ==> r.from != r.to
  {
    if |renames| == 0 then []
    else
      var pair := Rename(Normalize(cwd, renames[0].from), Normalize(cwd, renames[0].to));
      (if pair.from != pair.to then [pair] else []) + Pairs(cwd, renames[1..])
  }

  /** The batch's own renames, normalized, those that change something, and no others. */
  lemma {:induction false} PairsAreTheRenames(cwd: Path, renames: seq<Rename>, r: Rename)
    ensures r in Pairs(cwd, renames) <==>
      r.from != r.to && exists o :: o in renames && r == Rename(Normalize(cwd, o.from), Normalize(cwd, o.to))
  {
    if |renames| > 0 {
      PairsAreTheRenames(cwd, renames[1..], r);
      assert forall o :: o in renames <==> o == renames[0] || o in renames[1..];
    }
  }

  /** In the batch's order. */
  lemma {:induction false} PairsKeepOrder(cwd: Path, before: seq<Rename>, after: seq<Rename>)
    ensures Pairs(cwd, before + after) == Pairs(cwd, before) + Pairs(cwd, after)
    decreases |before|
  {
    if |before| == 0 {
      assert before + after == after;
    } else {
      assert (before + after)[1..] == before[1..] + after;
      PairsKeepOrder(cwd, before[1..], after);
    }
  }

  function Normalized(cwd: Path, paths: seq<Path>): (normalized: seq<Path>)
    ensures |normalized| == |paths|
    ensures forall i :: 0 <= i < |paths| ==> normalized[i] == Normalize(cwd, paths[i])
  {
    seq(|paths|, i requires 0 <= i < |paths| => Normalize(cwd, paths[i]))
  }

  predicate StrictlyUnder(path: Path, dir: Path) {
    |dir| < |path| && path[..|dir|] == dir
  }

  /** `path` after the folder rename `r`, keeping what lies below the folder. */
  function Rebased(r: Rename, path: Path): Path
    requires StrictlyUnder(path, r.from)
  {
    JoinPath(r.to, path[|r.from|..])
  }

  /** `pairs[i]` names the deepest folder above `path`, the last such pair on a tie. */
  ghost predicate Claims(pairs: seq<Rename>, i: nat, path: Path) {
    && i < |pairs|
    && StrictlyUnder(path, pairs[i].from)
    && forall j :: 0 <= j < |pairs| && StrictlyUnder(path, pairs[j].from) ==>
         |pairs[j].from| < |pairs[i].from| || (|pairs[j].from| == |pairs[i].from| && j <= i)
  }

  ghost predicate IsClaimed(pairs: seq<Rename>, path: Path) {
    exists i: nat :: Claims(pairs, i, path)
  }

  /** Some known path falls to `pairs[i]`: the pair is proven to name a folder. */
  ghost predicate Expanded(pairs: seq<Rename>, i: nat, paths: seq<Path>) {
    exists k :: 0 <= k < |paths| && Claims(pairs, i, paths[k])
  }

  /** `pairs[i]` stays in the result as it is and is the last pair to do so for its path. */
  ghost predicate Survives(pairs: seq<Rename>, i: nat, paths: seq<Path>) {
    && i < |pairs|
    && !Expanded(pairs, i, paths)
    && forall j :: i < j < |pairs| && pairs[j].from == pairs[i].from ==> Expanded(pairs, j, paths)
  }

  /** The result on `pairs` and known `paths`, both normalized. */
  ghost predicate Expansion(pairs: seq<Rename>, paths: seq<Path>, m: map<Path, Path>) {
    && (forall i: nat :: Survives(pairs, i, paths) ==> pairs[i].from in m && m[pairs[i].from] == pairs[i].to)
    && (forall p :: p in m ==>
         || (exists i: nat :: Survives(pairs, i, paths) && pairs[i].from == p)
         || (p in paths && IsClaimed(pairs, p)))
    && (forall p, i: nat :: p in paths && Claims(pairs, i, p) ==>
         && p in m
         && (m[p] == Rebased(pairs[i], p) || exists j: nat :: Survives(pairs, j, paths) && pairs[j].from == p))
  }

  method FindClaim(pairs: seq<Rename>, path: Path) returns (claim: Option<nat>)
    ensures claim.Some? ==> Claims(pairs, claim.value, path)
    ensures claim.None? ==> forall j: nat :: !Claims(pairs, j, path)
  {
    claim := None;
    for i := 0 to |pairs|
      invariant claim.Some? ==> Claims(pairs[..i], claim.value, path)
      invariant claim.None? ==> forall j :: 0 <= j < i ==> !StrictlyUnder(path, pairs[j].from)
    {
      if StrictlyUnder(path, pairs[i].from)
         && (claim.None? || |pairs[i].from| >= |pairs[claim.value].from|) {
        claim := Some(i);
      }
    }
    assert pairs[..|pairs|] == pairs;
  }

  method ExpandDirRenames(cwd: Path, renames: seq<Rename>, known: seq<Path>)
    returns (m: map<Path, Path>)
    ensures Expansion(Pairs(cwd, renames), Normalized(cwd, known), m)
    ensures FansOut(cwd, renames, known, m)
  {
    m := ExpandPairs(cwd, Pairs(cwd, renames), known);
    FansOutIffExpansion(cwd, renames, known, m);
  }

  /** Both passes over the normalized pairs. */
  method ExpandPairs(cwd: Path, pairs: seq<Rename>, known: seq<Path>) returns (m: map<Path, Path>)
    ensures Expansion(pairs, Normalized(cwd, known), m)
  {
    var claimed, expanded := ClaimKnown(cwd, pairs, known);
    m := KeepSurvivors(pairs, Normalized(cwd, known), claimed, expanded);
  }

  /** First pass: every known path goes to the pair that claims it. */
  method ClaimKnown(cwd: Path, pairs: seq<Rename>, known: seq<Path>)
    returns (m: map<Path, Path>, expanded: set<nat>)
    ensures forall i: nat :: i in expanded <==> Expanded(pairs, i, Normalized(cwd, known))
    ensures ClaimsMapped(pairs, Normalized(cwd, known), m)
  {
    ghost var paths := Normalized(cwd, known);
    m, expanded := map[], {};
    for k := 0 to |known|
      invariant ClaimedSoFar(pairs, paths[..k], m, expanded)
    {
      var path := NormalizePath(cwd, known[k]);
      var claim := FindClaim(pairs, path);
      ClaimOneMore(pairs, paths, k, claim, m, expanded);
      if claim.Some? {
        m := m[path := Rebased(pairs[claim.value], path)];
        expanded := expanded + {claim.value};
      }
    }
    assert paths[..|known|] == paths;
  }

  /** `m` sends each claimed path where its claim takes it, and holds nothing else. */
  ghost predicate ClaimsMapped(pairs: seq<Rename>, paths: seq<Path>, m: map<Path, Path>) {
    && (forall p :: p in m <==> p in paths && IsClaimed(pairs, p))
    && (forall p, i: nat :: p in m && Claims(pairs, i, p) ==> m[p] == Rebased(pairs[i], p))
  }

  /** The pairs that claimed something are known, and so is where what they claimed goes. */
  ghost predicate ClaimedSoFar(pairs: seq<Rename>, paths: seq<Path>, m: map<Path, Path>, expanded: set<nat>) {
    (forall i: nat :: i in expanded <==> Expanded(pairs, i, paths)) && ClaimsMapped(pairs, paths, m)
  }

  lemma ClaimOneMore(
      pairs: seq<Rename>, paths: seq<Path>, k: nat, claim: Option<nat>, m: map<Path, Path>, expanded: set<nat>)
    requires k < |paths| && ClaimedSoFar(pairs, paths[..k], m, expanded)
    requires claim.Some? ==> Claims(pairs, claim.value, paths[k])
    requires claim.None? ==> forall j: nat :: !Claims(pairs, j, paths[k])
    ensures match claim
            case Some(c) =>
              ClaimedSoFar(pairs, paths[..k + 1], m[paths[k] := Rebased(pairs[c], paths[k])], expanded + {c})
            case None => ClaimedSoFar(pairs, paths[..k + 1], m, expanded)
  {
    ExpandedByOneMore(pairs, paths, k, claim);
    MappedByOneMore(pairs, paths, k, claim, m);
  }

  lemma MappedByOneMore(pairs: seq<Rename>, paths: seq<Path>, k: nat, claim: Option<nat>, m: map<Path, Path>)
    requires k < |paths| && ClaimsMapped(pairs, paths[..k], m)
    requires claim.Some? ==> Claims(pairs, claim.value, paths[k])
    requires claim.None? ==> forall j: nat :: !Claims(pairs, j, paths[k])
    ensures ClaimsMapped(pairs, paths[..k + 1],
              if claim.Some? then m[paths[k] := Rebased(pairs[claim.value], paths[k])] else m)
  {
    assert paths[..k + 1] == paths[..k] + [paths[k]];
  }

  /** Second pass: a pair that claimed nothing is kept as written. */
  method KeepSurvivors(pairs: seq<Rename>, ghost paths: seq<Path>, claimed: map<Path, Path>, expanded: set<nat>)
    returns (m: map<Path, Path>)
    requires forall i: nat :: i in expanded <==> Expanded(pairs, i, paths)
    ensures forall i: nat :: Survives(pairs, i, paths) ==> pairs[i].from in m && m[pairs[i].from] == pairs[i].to
    ensures forall p :: p in m ==>
      || (exists i: nat :: Survives(pairs, i, paths) && pairs[i].from == p)
      || (p in claimed && m[p] == claimed[p])
    ensures forall p :: p in claimed ==> p in m
  {
    m := claimed;
    for i := 0 to |pairs|
      invariant forall j: nat :: SurvivesAmong(pairs, j, i, paths) ==>
                  pairs[j].from in m && m[pairs[j].from] == pairs[j].to
      invariant forall p :: p in m ==>
                  (exists j: nat :: SurvivesAmong(pairs, j, i, paths) && pairs[j].from == p)
                  || (p in claimed && m[p] == claimed[p])
      invariant forall p :: p in claimed ==> p in m
    {
      ghost var before := m;
      if i !in expanded {
        m := m[pairs[i].from := pairs[i].to];
        assert SurvivesAmong(pairs, i, i + 1, paths);
      }
    }
    assert forall j: nat :: SurvivesAmong(pairs, j, |pairs|, paths) <==> Survives(pairs, j, paths);
  }

  /** `Survives`, counting only the first `n` pairs. */
  ghost predicate SurvivesAmong(pairs: seq<Rename>, i: nat, n: nat, paths: seq<Path>) {
    && i < n <= |pairs|
    && !Expanded(pairs, i, paths)
    && forall j :: i < j < n && pairs[j].from == pairs[i].from ==> Expanded(pairs, j, paths)
  }

  lemma ExpandedByOneMore(pairs: seq<Rename>, paths: seq<Path>, k: nat, claim: Option<nat>)
    requires k < |paths|
    requires claim.Some? ==> Claims(pairs, claim.value, paths[k])
    requires claim.None? ==> forall j: nat :: !Claims(pairs, j, paths[k])
    ensures forall i: nat :: Expanded(pairs, i, paths[..k + 1]) <==>
                             Expanded(pairs, i, paths[..k]) || claim == Some(i)
  {
    forall i: nat
      ensures Expanded(pairs, i, paths[..k + 1]) <==> Expanded(pairs, i, paths[..k]) || claim == Some(i)
    {
      assert forall x :: 0 <= x < k ==> paths[..k + 1][x] == paths[..k][x];
      assert paths[..k + 1][k] == paths[k];
    }
  }

  // --- The same, told from the batch as it was sent ---------------------------

  function Cleaned(cwd: Path, r: Rename): Rename {
    Rename(Normalize(cwd, r.from), Normalize(cwd, r.to))
  }

  /** The rename changes something, and names a folder above `path`. */
  predicate MovesFolderAbove(cwd: Path, r: Rename, path: Path) {
    Cleaned(cwd, r).from != Cleaned(cwd, r).to && StrictlyUnder(path, Cleaned(cwd, r).from)
  }

  /** `renames[i]` is the deepest of those, the last on a tie. */
  ghost predicate Takes(cwd: Path, renames: seq<Rename>, i: nat, path: Path) {
    && i < |renames| && MovesFolderAbove(cwd, renames[i], path)
    && forall j :: 0 <= j < |renames| && MovesFolderAbove(cwd, renames[j], path) ==>
         var mine, other := |Cleaned(cwd, renames[i]).from|, |Cleaned(cwd, renames[j]).from|;
         other < mine || (other == mine && j <= i)
  }

  /** Some known path goes with `renames[i]`. */
  ghost predicate IsFolder(cwd: Path, renames: seq<Rename>, i: nat, known: seq<Path>) {
    exists k :: 0 <= k < |known| && Takes(cwd, renames, i, Normalize(cwd, known[k]))
  }

  /** `renames[i]` changes something and no known path goes with it; nor is that so of any later rename of its path. */
  ghost predicate StaysVerbatim(cwd: Path, renames: seq<Rename>, i: nat, known: seq<Path>) {
    && i < |renames| && Cleaned(cwd, renames[i]).from != Cleaned(cwd, renames[i]).to
    && !IsFolder(cwd, renames, i, known)
    && forall j :: i < j < |renames| && Cleaned(cwd, renames[j]).from == Cleaned(cwd, renames[i]).from ==>
         Cleaned(cwd, renames[j]).from == Cleaned(cwd, renames[j]).to || IsFolder(cwd, renames, j, known)
  }

  /**
   * The map holds the verbatim renames, and the known paths below a renamed
   * folder, each with the folder's new path in front. A verbatim rename goes
   * before a folder.
   */
  ghost predicate FansOut(cwd: Path, renames: seq<Rename>, known: seq<Path>, m: map<Path, Path>) {
    && (forall i: nat :: StaysVerbatim(cwd, renames, i, known) ==>
          var r := Cleaned(cwd, renames[i]); r.from in m && m[r.from] == r.to)
    && (forall p :: p in m ==>
          || (exists i: nat :: StaysVerbatim(cwd, renames, i, known) && Cleaned(cwd, renames[i]).from == p)
          || (p in Normalized(cwd, known) && exists i: nat :: Takes(cwd, renames, i, p)))
    && (forall p, i: nat :: p in Normalized(cwd, known) && Takes(cwd, renames, i, p) ==>
          var r := Cleaned(cwd, renames[i]);
          && p in m
          && (m[p] == JoinPath(r.to, p[|r.from|..])
              || exists j: nat :: StaysVerbatim(cwd, renames, j, known) && Cleaned(cwd, renames[j]).from == p))
  }

  /** Where `renames[i]` is among the pairs. */
  function Position(cwd: Path, renames: seq<Rename>, i: nat): nat
    requires i <= |renames|
  {
    |Pairs(cwd, renames[..i])|
  }

  predicate Changes(cwd: Path, renames: seq<Rename>, i: nat) {
    i < |renames| && Cleaned(cwd, renames[i]).from != Cleaned(cwd, renames[i]).to
  }

  lemma PairAtPosition(cwd: Path, renames: seq<Rename>, i: nat)
    requires Changes(cwd, renames, i)
    ensures var k := Position(cwd, renames, i);
      k < |Pairs(cwd, renames)| && Pairs(cwd, renames)[k] == Cleaned(cwd, renames[i])
  {
    assert renames == renames[..i] + renames[i..];
    PairsKeepOrder(cwd, renames[..i], renames[i..]);
  }

  lemma PositionsIncrease(cwd: Path, renames: seq<Rename>, i: nat, j: nat)
    requires i < j <= |renames|
    ensures Position(cwd, renames, i) <= Position(cwd, renames, j)
    ensures Changes(cwd, renames, i) ==> Position(cwd, renames, i) < Position(cwd, renames, j)
  {
    assert renames[..j] == renames[..i] + renames[i..j];
    PairsKeepOrder(cwd, renames[..i], renames[i..j]);
  }

  /** The position of a rename further on is one more for each rename before it that changes something. */
  lemma PositionShifts(cwd: Path, renames: seq<Rename>, i: nat)
    requires |renames| > 0 && i < |renames|
    ensures Position(cwd, renames, i + 1)
         == (if Changes(cwd, renames, 0) then 1 else 0) + Position(cwd, renames[1..], i)
  {
    assert renames[..i + 1][1..] == renames[1..][..i] && renames[..i + 1][0] == renames[0];
  }

  lemma {:induction false} PairHasAPosition(cwd: Path, renames: seq<Rename>, k: nat) returns (i: nat)
    requires k < |Pairs(cwd, renames)|
    ensures Changes(cwd, renames, i) && Position(cwd, renames, i) == k
    decreases |renames|
  {
    var first := if Changes(cwd, renames, 0) then 1 else 0;
    if k < first {
      i := 0;
      assert renames[..0] == [];
    } else {
      var rest := PairHasAPosition(cwd, renames[1..], k - first);
      PositionShifts(cwd, renames, rest);
      i := rest + 1;
    }
  }

  lemma TakesIffClaims(cwd: Path, renames: seq<Rename>, i: nat, path: Path)
    requires Changes(cwd, renames, i)
    ensures Takes(cwd, renames, i, path) <==> Claims(Pairs(cwd, renames), Position(cwd, renames, i), path)
  {
    var pairs, k := Pairs(cwd, renames), Position(cwd, renames, i);
    PairAtPosition(cwd, renames, i);
    forall j: nat | Changes(cwd, renames, j)
      ensures var x := Position(cwd, renames, j);
        x < |pairs| && pairs[x] == Cleaned(cwd, renames[j]) && (j <= i <==> x <= k)
    {
      PairAtPosition(cwd, renames, j);
      if j < i {
        PositionsIncrease(cwd, renames, j, i);
      } else if i < j {
        PositionsIncrease(cwd, renames, i, j);
      }
    }
    if Takes(cwd, renames, i, path) {
      forall x | 0 <= x < |pairs| && StrictlyUnder(path, pairs[x].from)
        ensures |pairs[x].from| < |pairs[k].from| || (|pairs[x].from| == |pairs[k].from| && x <= k)
      {
        var j := PairHasAPosition(cwd, renames, x);
        assert MovesFolderAbove(cwd, renames[j], path);
      }
    } else if Claims(pairs, k, path) {
      forall j | 0 <= j < |renames| && MovesFolderAbove(cwd, renames[j], path)
        ensures var mine, other := |Cleaned(cwd, renames[i]).from|, |Cleaned(cwd, renames[j]).from|;
          other < mine || (other == mine && j <= i)
      {
        assert Changes(cwd, renames, j);
      }
    }
  }

  lemma IsFolderIffExpanded(cwd: Path, renames: seq<Rename>, i: nat, known: seq<Path>)
    requires Changes(cwd, renames, i)
    ensures IsFolder(cwd, renames, i, known)
       <==> Expanded(Pairs(cwd, renames), Position(cwd, renames, i), Normalized(cwd, known))
  {
    forall k | 0 <= k < |known|
      ensures Takes(cwd, renames, i, Normalize(cwd, known[k]))
         <==> Claims(Pairs(cwd, renames), Position(cwd, renames, i), Normalized(cwd, known)[k])
    {
      TakesIffClaims(cwd, renames, i, Normalize(cwd, known[k]));
    }
  }

  lemma StaysIffSurvives(cwd: Path, renames: seq<Rename>, i: nat, known: seq<Path>)
    requires Changes(cwd, renames, i)
    ensures StaysVerbatim(cwd, renames, i, known)
       <==> Survives(Pairs(cwd, renames), Position(cwd, renames, i), Normalized(cwd, known))
  {
    var pairs, paths, k := Pairs(cwd, renames), Normalized(cwd, known), Position(cwd, renames, i);
    PairAtPosition(cwd, renames, i);
    IsFolderIffExpanded(cwd, renames, i, known);
    forall j: nat | Changes(cwd, renames, j) && i < j
      ensures var x := Position(cwd, renames, j);
        && k < x < |pairs| && pairs[x] == Cleaned(cwd, renames[j])
        && (IsFolder(cwd, renames, j, known) <==> Expanded(pairs, x, paths))
    {
      PairAtPosition(cwd, renames, j);
      PositionsIncrease(cwd, renames, i, j);
      IsFolderIffExpanded(cwd, renames, j, known);
    }
    if StaysVerbatim(cwd, renames, i, known) {
      forall x | k < x < |pairs| && pairs[x].from == pairs[k].from ensures Expanded(pairs, x, paths) {
        var j := PairHasAPosition(cwd, renames, x);
        if j < i {
          PositionsIncrease(cwd, renames, j, i);
        }
        assert Changes(cwd, renames, j) && i < j;
      }
    } else if Survives(pairs, k, paths) {
      forall j | i < j < |renames| && Cleaned(cwd, renames[j]).from == Cleaned(cwd, renames[i]).from
        ensures Cleaned(cwd, renames[j]).from == Cleaned(cwd, renames[j]).to || IsFolder(cwd, renames, j, known)
      {
        assert Changes(cwd, renames, j) ==> IsFolder(cwd, renames, j, known);
      }
    }
  }

  /** Some rename is kept as it is and takes `path` to `image`. */
  ghost predicate KeptTo(cwd: Path, renames: seq<Rename>, known: seq<Path>, path: Path, image: Path) {
    exists i: nat :: StaysVerbatim(cwd, renames, i, known) && Cleaned(cwd, renames[i]) == Rename(path, image)
  }

  ghost predicate SurvivesTo(pairs: seq<Rename>, paths: seq<Path>, path: Path, image: Path) {
    exists i: nat :: Survives(pairs, i, paths) && pairs[i] == Rename(path, image)
  }

  /** Some rename takes `path` with the folder it names to `image`. */
  ghost predicate TakenTo(cwd: Path, renames: seq<Rename>, path: Path, image: Path) {
    exists i: nat :: Takes(cwd, renames, i, path) && Rebased(Cleaned(cwd, renames[i]), path) == image
  }

  lemma KeptIffSurvives(cwd: Path, renames: seq<Rename>, known: seq<Path>, path: Path, image: Path)
    ensures KeptTo(cwd, renames, known, path, image)
       <==> SurvivesTo(Pairs(cwd, renames), Normalized(cwd, known), path, image)
  {
    var pairs := Pairs(cwd, renames);
    if i: nat :| StaysVerbatim(cwd, renames, i, known) && Cleaned(cwd, renames[i]) == Rename(path, image) {
      PairAtPosition(cwd, renames, i);
      StaysIffSurvives(cwd, renames, i, known);
    } else if x: nat :| Survives(pairs, x, Normalized(cwd, known)) && pairs[x] == Rename(path, image) {
      var i := PairHasAPosition(cwd, renames, x);
      PairAtPosition(cwd, renames, i);
      StaysIffSurvives(cwd, renames, i, known);
    }
  }

  lemma TakenIffClaimed(cwd: Path, renames: seq<Rename>, path: Path, image: Path)
    ensures TakenTo(cwd, renames, path, image) <==> ClaimedTo(Pairs(cwd, renames), path, image)
  {
    var pairs := Pairs(cwd, renames);
    if i: nat :| Takes(cwd, renames, i, path) && Rebased(Cleaned(cwd, renames[i]), path) == image {
      PairAtPosition(cwd, renames, i);
      TakesIffClaims(cwd, renames, i, path);
    } else if x: nat :| Claims(pairs, x, path) && Rebased(pairs[x], path) == image {
      var i := PairHasAPosition(cwd, renames, x);
      PairAtPosition(cwd, renames, i);
      TakesIffClaims(cwd, renames, i, path);
    }
  }

  /** The pairs take nothing away from the batch and add nothing to it. */
  lemma FansOutIffExpansion(cwd: Path, renames: seq<Rename>, known: seq<Path>, m: map<Path, Path>)
    ensures FansOut(cwd, renames, known, m) <==> Expansion(Pairs(cwd, renames), Normalized(cwd, known), m)
  {
    var pairs, paths := Pairs(cwd, renames), Normalized(cwd, known);
    forall p, q
      ensures KeptTo(cwd, renames, known, p, q) <==> SurvivesTo(pairs, paths, p, q)
      ensures TakenTo(cwd, renames, p, q) <==> ClaimedTo(pairs, p, q)
    {
      KeptIffSurvives(cwd, renames, known, p, q);
      TakenIffClaimed(cwd, renames, p, q);
    }
    FansOutByValue(cwd, renames, known, m);
    ExpansionByValue(pairs, paths, m);
  }

  lemma FansOutByValue(cwd: Path, renames: seq<Rename>, known: seq<Path>, m: map<Path, Path>)
    ensures FansOut(cwd, renames, known, m) <==>
      && (forall p, q :: KeptTo(cwd, renames, known, p, q) ==> p in m && m[p] == q)
      && (forall p :: p in m ==>
            || (exists q :: KeptTo(cwd, renames, known, p, q))
            || (p in Normalized(cwd, known) && exists q :: TakenTo(cwd, renames, p, q)))
      && (forall p, q :: p in Normalized(cwd, known) && TakenTo(cwd, renames, p, q) ==>
            p in m && (m[p] == q || exists q' :: KeptTo(cwd, renames, known, p, q')))
  {
    forall i: nat | StaysVerbatim(cwd, renames, i, known)
      ensures KeptTo(cwd, renames, known, Cleaned(cwd, renames[i]).from, Cleaned(cwd, renames[i]).to)
    {
    }
    forall i: nat, p | Takes(cwd, renames, i, p)
      ensures TakenTo(cwd, renames, p, Rebased(Cleaned(cwd, renames[i]), p))
    {
    }
  }

  lemma ExpansionByValue(pairs: seq<Rename>, paths: seq<Path>, m: map<Path, Path>)
    ensures Expansion(pairs, paths, m) <==>
      && (forall p, q :: SurvivesTo(pairs, paths, p, q) ==> p in m && m[p] == q)
      && (forall p :: p in m ==>
            || (exists q :: SurvivesTo(pairs, paths, p, q))
            || (p in paths && exists q :: ClaimedTo(pairs, p, q)))
      && (forall p, q :: p in paths && ClaimedTo(pairs, p, q) ==>
            p in m && (m[p] == q || exists q' :: SurvivesTo(pairs, paths, p, q')))
  {
    forall i: nat | Survives(pairs, i, paths) ensures SurvivesTo(pairs, paths, pairs[i].from, pairs[i].to) {
    }
    forall i: nat, p | Claims(pairs, i, p) ensures ClaimedTo(pairs, p, Rebased(pairs[i], p)) {
    }
  }

  // --- What the expansion means ----------------------------------------------

  ghost predicate DistinctOlds(pairs: seq<Rename>) {
    forall i, j :: 0 <= i < j < |pairs| ==> pairs[i].from != pairs[j].from
  }

  predicate AtOrUnder(path: Path, dir: Path) {
    path == dir || StrictlyUnder(path, dir)
  }

  /** Where a file goes when every pair moves what it names: the deepest pair above it decides. */
  ghost predicate MovesTo(pairs: seq<Rename>, path: Path, image: Path) {
    if exists r :: r in pairs && AtOrUnder(path, r.from) then
      exists r :: r in pairs && AtOrUnder(path, r.from)
        && (forall s :: s in pairs && AtOrUnder(path, s.from) ==> |s.from| <= |r.from|)
        && image == (if path == r.from then r.to else Rebased(r, path))
    else image == path
  }

  function Image(m: map<Path, Path>, path: Path): Path {
    if path in m then m[path] else path
  }

  /** The map has an entry for the path: a pair kept as it is names it, or it is known and below a renamed folder. */
  ghost predicate IsMapped(pairs: seq<Rename>, paths: seq<Path>, path: Path) {
    || (exists i: nat :: KeptAt(pairs, paths, i, path))
    || (path in paths && IsClaimed(pairs, path))
  }

  ghost predicate KeptAt(pairs: seq<Rename>, paths: seq<Path>, i: nat, path: Path) {
    Survives(pairs, i, paths) && pairs[i].from == path
  }

  /** Where the map takes a path, told from the pairs and the known paths alone. */
  ghost function Aim(pairs: seq<Rename>, paths: seq<Path>, path: Path): Path {
    if exists i: nat :: KeptAt(pairs, paths, i, path) then
      var i: nat :| KeptAt(pairs, paths, i, path);
      pairs[i].to
    else if path in paths && IsClaimed(pairs, path) then
      var c: nat :| Claims(pairs, c, path);
      Rebased(pairs[c], path)
    else path
  }

  /** The expansion fixes the map: its domain and where it takes each path. */
  lemma ExpansionIsAim(pairs: seq<Rename>, paths: seq<Path>, m: map<Path, Path>, path: Path)
    requires Expansion(pairs, paths, m)
    ensures path in m <==> IsMapped(pairs, paths, path)
    ensures Image(m, path) == Aim(pairs, paths, path)
  {
    if i: nat :| KeptAt(pairs, paths, i, path) {
      assert Survives(pairs, i, paths);
    } else if path in paths && IsClaimed(pairs, path) {
      var c: nat :| Claims(pairs, c, path);
      forall j: nat ensures !(Survives(pairs, j, paths) && pairs[j].from == path) {
        assert !KeptAt(pairs, paths, j, path);
      }
    } else {
      forall j: nat ensures !(Survives(pairs, j, paths) && pairs[j].from == path) {
        assert !KeptAt(pairs, paths, j, path);
      }
    }
  }

  /** Some pair claims the path as soon as some pair names a folder above it. */
  lemma {:induction false} ClaimExists(pairs: seq<Rename>, path: Path, n: nat) returns (claim: Option<nat>)
    requires n <= |pairs|
    ensures claim.Some? ==> Claims(pairs[..n], claim.value, path)
    ensures claim.None? ==> forall i :: 0 <= i < n ==> !StrictlyUnder(path, pairs[i].from)
  {
    claim := None;
    if n > 0 {
      claim := ClaimExists(pairs, path, n - 1);
      if StrictlyUnder(path, pairs[n - 1].from)
         && (claim.None? || |pairs[n - 1].from| >= |pairs[claim.value].from|) {
        claim := Some(n - 1);
      }
    }
  }

  /** Where `path` goes with a pair that names it or a folder above it. */
  function Moved(r: Rename, path: Path): Path
    requires AtOrUnder(path, r.from)
  {
    if path == r.from then r.to else Rebased(r, path)
  }

  /** Among the first `n` pairs, the last of the deepest at or above `path`. */
  function DeepestBelow(pairs: seq<Rename>, path: Path, n: nat): (deepest: Option<nat>)
    requires n <= |pairs|
    ensures deepest.Some? ==>
      && deepest.value < n && AtOrUnder(path, pairs[deepest.value].from)
      && forall j :: 0 <= j < n && AtOrUnder(path, pairs[j].from) ==>
           |pairs[j].from| <= |pairs[deepest.value].from|
    ensures deepest.None? ==> forall j :: 0 <= j < n ==> !AtOrUnder(path, pairs[j].from)
  {
    if n == 0 then None
    else
      var deepest := DeepestBelow(pairs, path, n - 1);
      if AtOrUnder(path, pairs[n - 1].from)
         && (deepest.None? || |pairs[n - 1].from| >= |pairs[deepest.value].from|) then Some(n - 1)
      else deepest
  }

  /** Where the batch takes `path`. */
  function Destination(pairs: seq<Rename>, path: Path): Path {
    match DeepestBelow(pairs, path, |pairs|)
    case Some(i) => Moved(pairs[i], path)
    case None => path
  }

  /** For distinct old paths there is one place a path moves to. */
  lemma MovesToItsDestination(pairs: seq<Rename>, path: Path, image: Path)
    requires DistinctOlds(pairs)
    ensures MovesTo(pairs, path, image) <==> image == Destination(pairs, path)
  {
    var deepest := DeepestBelow(pairs, path, |pairs|);
    if deepest.Some? {
      var r := pairs[deepest.value];
      assert r in pairs && AtOrUnder(path, r.from);
      forall s | s in pairs && AtOrUnder(path, s.from) && |s.from| == |r.from| ensures s == r {
        assert s.from == path[..|s.from|] == r.from;
      }
    }
  }

  /** The rename changes something, and names `path` or a folder above it. */
  predicate Reaches(cwd: Path, o: Rename, path: Path) {
    Cleaned(cwd, o).from != Cleaned(cwd, o).to && AtOrUnder(path, Cleaned(cwd, o).from)
  }

  /** No rename that reaches `path` names a longer one than `o` does. */
  ghost predicate ReachesDeepest(cwd: Path, renames: seq<Rename>, o: Rename, path: Path) {
    && o in renames && Reaches(cwd, o, path)
    && forall x :: x in renames && Reaches(cwd, x, path) ==> |Normalize(cwd, x.from)| <= |Normalize(cwd, o.from)|
  }

  lemma PairReaches(cwd: Path, renames: seq<Rename>, r: Rename, path: Path) returns (o: Rename)
    requires r in Pairs(cwd, renames) && AtOrUnder(path, r.from)
    ensures o in renames && Reaches(cwd, o, path) && r == Cleaned(cwd, o)
  {
    PairsAreTheRenames(cwd, renames, r);
    o :| o in renames && r == Rename(Normalize(cwd, o.from), Normalize(cwd, o.to));
  }

  lemma DeepestPairReaches(cwd: Path, renames: seq<Rename>, path: Path) returns (o: Rename)
    requires DeepestBelow(Pairs(cwd, renames), path, |Pairs(cwd, renames)|).Some?
    ensures ReachesDeepest(cwd, renames, o, path)
    ensures Moved(Cleaned(cwd, o), path) == Destination(Pairs(cwd, renames), path)
  {
    var pairs := Pairs(cwd, renames);
    var r := pairs[DeepestBelow(pairs, path, |pairs|).value];
    o := PairReaches(cwd, renames, r, path);
    forall x | x in renames && Reaches(cwd, x, path) ensures |Cleaned(cwd, x).from| <= |r.from| {
      PairsAreTheRenames(cwd, renames, Cleaned(cwd, x));
    }
  }

  lemma ReachedIsBelowAPair(cwd: Path, renames: seq<Rename>, o: Rename, path: Path)
    requires o in renames && Reaches(cwd, o, path)
    ensures Cleaned(cwd, o) in Pairs(cwd, renames)
    ensures DeepestBelow(Pairs(cwd, renames), path, |Pairs(cwd, renames)|).Some?
  {
    PairsAreTheRenames(cwd, renames, Cleaned(cwd, o));
  }

  lemma DeepestsAgree(cwd: Path, renames: seq<Rename>, o: Rename, d: Rename, path: Path)
    requires DistinctOlds(Pairs(cwd, renames))
    requires ReachesDeepest(cwd, renames, o, path) && ReachesDeepest(cwd, renames, d, path)
    ensures Cleaned(cwd, o) == Cleaned(cwd, d)
  {
    var mine, yours := Cleaned(cwd, o), Cleaned(cwd, d);
    ReachedIsBelowAPair(cwd, renames, o, path);
    ReachedIsBelowAPair(cwd, renames, d, path);
    assert |mine.from| == |yours.from|;
    assert mine.from == path[..|mine.from|] == yours.from;
  }

  /** Where the batch takes a path, told from the renames as they were sent: the deepest that reaches it decides. */
  lemma DeepestRenameDecides(cwd: Path, renames: seq<Rename>, o: Rename, path: Path)
    requires DistinctOlds(Pairs(cwd, renames))
    requires ReachesDeepest(cwd, renames, o, path)
    ensures Destination(Pairs(cwd, renames), path)
         == if path == Normalize(cwd, o.from) then Normalize(cwd, o.to)
            else JoinPath(Normalize(cwd, o.to), path[|Normalize(cwd, o.from)|..])
  {
    ReachedIsBelowAPair(cwd, renames, o, path);
    var d := DeepestPairReaches(cwd, renames, path);
    DeepestsAgree(cwd, renames, o, d, path);
  }

  /** And a path no rename reaches stays; of those that reach one, some is deepest. */
  lemma UnreachedStays(cwd: Path, renames: seq<Rename>, path: Path)
    ensures (forall o :: o in renames ==> !Reaches(cwd, o, path)) ==> Destination(Pairs(cwd, renames), path) == path
    ensures (exists o :: o in renames && Reaches(cwd, o, path)) ==> exists o :: ReachesDeepest(cwd, renames, o, path)
  {
    var pairs := Pairs(cwd, renames);
    if DeepestBelow(pairs, path, |pairs|).Some? {
      var o := DeepestPairReaches(cwd, renames, path);
    } else if o :| o in renames && Reaches(cwd, o, path) {
      ReachedIsBelowAPair(cwd, renames, o, path);
    }
  }

  /** The pair's old path is `path` itself. */
  predicate Names(pairs: seq<Rename>, i: nat, path: Path) {
    i < |pairs| && pairs[i].from == path
  }

  lemma NamedGoesWhereNamed(pairs: seq<Rename>, i: nat, path: Path)
    requires DistinctOlds(pairs) && Names(pairs, i, path)
    ensures Destination(pairs, path) == pairs[i].to
  {
    assert AtOrUnder(path, pairs[i].from);
    var k := DeepestBelow(pairs, path, |pairs|).value;
    assert pairs[k].from == path;
  }

  lemma ClaimedGoesWithItsFolder(pairs: seq<Rename>, c: nat, path: Path)
    requires DistinctOlds(pairs) && Claims(pairs, c, path) && forall i: nat :: !Names(pairs, i, path)
    ensures Destination(pairs, path) == Rebased(pairs[c], path)
  {
    assert AtOrUnder(path, pairs[c].from);
    var k := DeepestBelow(pairs, path, |pairs|).value;
    assert !Names(pairs, k, path);
    assert pairs[k].from == path[..|pairs[k].from|] && pairs[c].from == path[..|pairs[c].from|];
  }

  lemma UnclaimedStays(pairs: seq<Rename>, path: Path)
    requires !IsClaimed(pairs, path) && forall i: nat :: !Names(pairs, i, path)
    ensures Destination(pairs, path) == path
  {
    var claim := ClaimExists(pairs, path, |pairs|);
    assert pairs[..|pairs|] == pairs;
    forall k: nat | k < |pairs| ensures !AtOrUnder(path, pairs[k].from) {
      assert !Names(pairs, k, path);
    }
  }

  /** No pair is a no-op or renames the empty path. */
  ghost predicate Proper(pairs: seq<Rename>) {
    forall r :: r in pairs ==> r.from != r.to && r.from != []
  }

  lemma RebasedElsewhere(r: Rename, path: Path)
    requires StrictlyUnder(path, r.from) && IsNormal(path) && r.from != r.to && r.from != []
    ensures Rebased(r, path) == r.to + path[|r.from|..] != path
  {
    var rest := path[|r.from|..];
    assert rest[0] == path[|r.from|];
    assert path == r.from + rest;
    assert (r.to + rest)[..|r.to|] == r.to;
  }

  /** The folder claiming `path` happens to take it to `image`. */
  ghost predicate ClaimedTo(pairs: seq<Rename>, path: Path, image: Path) {
    exists c: nat :: Claims(pairs, c, path) && Rebased(pairs[c], path) == image
  }

  /**
   * What it takes for the map to agree with the batch on `path`. A path that a
   * pair names: the pair claims no known path, or the path is itself known and
   * the folder above it happens to take it to the same place. Any other path: it
   * is known, or no pair names a folder above it.
   */
  ghost predicate Followed(pairs: seq<Rename>, paths: seq<Path>, path: Path) {
    if exists i: nat :: Names(pairs, i, path) then
      exists i: nat :: Names(pairs, i, path)
        && (!Expanded(pairs, i, paths) || (path in paths && ClaimedTo(pairs, path, pairs[i].to)))
    else path in paths || !IsClaimed(pairs, path)
  }

  /** For distinct old paths the map takes a path where the batch does exactly when it is followed. */
  lemma ImageFollowsBatchIff(pairs: seq<Rename>, paths: seq<Path>, m: map<Path, Path>, path: Path)
    requires DistinctOlds(pairs) && Proper(pairs) && Expansion(pairs, paths, m) && IsNormal(path)
    ensures Image(m, path) == Destination(pairs, path) <==> Followed(pairs, paths, path)
  {
    if i: nat :| Names(pairs, i, path) {
      NamedImageIff(pairs, paths, m, i, path);
    } else if c: nat :| Claims(pairs, c, path) {
      ClaimedGoesWithItsFolder(pairs, c, path);
      assert pairs[c] in pairs;
      RebasedElsewhere(pairs[c], path);
      NobodySurvivesAt(pairs, paths, path);
    } else {
      UnclaimedStays(pairs, path);
      NobodySurvivesAt(pairs, paths, path);
    }
  }

  lemma NobodySurvivesAt(pairs: seq<Rename>, paths: seq<Path>, path: Path)
    requires forall i: nat :: !Names(pairs, i, path)
    ensures forall i: nat :: Survives(pairs, i, paths) ==> pairs[i].from != path
  {
    forall i: nat | Survives(pairs, i, paths) ensures pairs[i].from != path {
      assert !Names(pairs, i, path);
    }
  }

  /**
   * A pair that claimed nothing takes its old path along; one that claimed
   * something leaves it to the folder above it, if it is known.
   */
  lemma NamedImageIff(pairs: seq<Rename>, paths: seq<Path>, m: map<Path, Path>, i: nat, path: Path)
    requires DistinctOlds(pairs) && Proper(pairs) && Expansion(pairs, paths, m) && Names(pairs, i, path)
    ensures Destination(pairs, path) == pairs[i].to
    ensures Image(m, path) == pairs[i].to
       <==> !Expanded(pairs, i, paths) || (path in paths && ClaimedTo(pairs, path, pairs[i].to))
    ensures Followed(pairs, paths, path)
       <==> !Expanded(pairs, i, paths) || (path in paths && ClaimedTo(pairs, path, pairs[i].to))
  {
    NamedGoesWhereNamed(pairs, i, path);
    assert forall j: nat :: Names(pairs, j, path) ==> j == i;
    if !Expanded(pairs, i, paths) {
      assert Survives(pairs, i, paths);
    } else {
      assert pairs[i] in pairs;
      assert forall j: nat :: Survives(pairs, j, paths) ==> pairs[j].from != path;
      if c: nat :| Claims(pairs, c, path) {
        assert forall d: nat :: Claims(pairs, d, path) ==> d == c;
        assert path in paths ==> m[path] == Rebased(pairs[c], path);
      }
    }
  }

  /**
   * For distinct old paths a known path is mapped to where the batch moves it,
   * unless a pair that names it was taken for a folder; then only if the folder
   * above happens to take it there.
   */
  lemma ExpansionMovesKnownFiles(pairs: seq<Rename>, paths: seq<Path>, m: map<Path, Path>, path: Path)
    requires DistinctOlds(pairs) && Proper(pairs) && Expansion(pairs, paths, m) && IsNormal(path)
    requires path in paths
    ensures MovesTo(pairs, path, Image(m, path))
       <==> forall i: nat :: Names(pairs, i, path) && Expanded(pairs, i, paths) ==> ClaimedTo(pairs, path, pairs[i].to)
  {
    MovesToItsDestination(pairs, path, Image(m, path));
    ImageFollowsBatchIff(pairs, paths, m, path);
    KnownIsFollowedIff(pairs, paths, path);
  }

  lemma KnownIsFollowedIff(pairs: seq<Rename>, paths: seq<Path>, path: Path)
    requires DistinctOlds(pairs) && path in paths
    ensures Followed(pairs, paths, path)
       <==> forall i: nat :: Names(pairs, i, path) && Expanded(pairs, i, paths) ==> ClaimedTo(pairs, path, pairs[i].to)
  {
    if i: nat :| Names(pairs, i, path) {
      assert forall j: nat :: Names(pairs, j, path) ==> j == i;
    }
  }

  lemma ClaimedIffBelowAPair(pairs: seq<Rename>, path: Path)
    ensures IsClaimed(pairs, path) <==> exists r :: r in pairs && StrictlyUnder(path, r.from)
  {
    if c: nat :| Claims(pairs, c, path) {
      assert pairs[c] in pairs;
    } else {
      var claim := ClaimExists(pairs, path, |pairs|);
      assert pairs[..|pairs|] == pairs;
    }
  }

  lemma FollowedIfUnnamed(pairs: seq<Rename>, paths: seq<Path>, path: Path)
    requires forall r :: r in pairs ==> r.from != path
    ensures Followed(pairs, paths, path) <==> path in paths || !IsClaimed(pairs, path)
  {
    forall i: nat ensures !Names(pairs, i, path) {
      assert i < |pairs| ==> pairs[i] in pairs;
    }
  }

  /** A path nobody knows and no pair names is mapped right exactly when no pair lies above it. */
  lemma UnknownPathFollowsIff(pairs: seq<Rename>, paths: seq<Path>, m: map<Path, Path>, path: Path)
    requires DistinctOlds(pairs) && Proper(pairs) && Expansion(pairs, paths, m) && IsNormal(path)
    requires path !in paths && forall r :: r in pairs ==> r.from != path
    ensures MovesTo(pairs, path, Image(m, path)) <==> forall r :: r in pairs ==> !StrictlyUnder(path, r.from)
  {
    MovesToItsDestination(pairs, path, Image(m, path));
    ImageFollowsBatchIff(pairs, paths, m, path);
    FollowedIfUnnamed(pairs, paths, path);
    ClaimedIffBelowAPair(pairs, path);
  }

  const OLD_FOLDER := [Root, Normal("R")]
  const NEW_FOLDER := [Root, Normal("S")]

  /** Renaming `/R` to `/S` when `/R` and `/R/a.R` are known: the file moves, the folder's own path is left behind. */
  lemma KnownFolderIsLeftBehind(m: map<Path, Path>)
    requires Expansion([Rename(OLD_FOLDER, NEW_FOLDER)], [OLD_FOLDER, OLD_FOLDER + [Normal("a.R")]], m)
    ensures Image(m, OLD_FOLDER + [Normal("a.R")]) == NEW_FOLDER + [Normal("a.R")]
    ensures Image(m, OLD_FOLDER) != Destination([Rename(OLD_FOLDER, NEW_FOLDER)], OLD_FOLDER)
  {
    var pairs, file := [Rename(OLD_FOLDER, NEW_FOLDER)], OLD_FOLDER + [Normal("a.R")];
    var paths := [OLD_FOLDER, file];
    assert file[..2] == OLD_FOLDER && file[2..] == [Normal("a.R")];
    assert Claims(pairs, 0, paths[1]);
    assert Names(pairs, 0, OLD_FOLDER);
    NamedImageIff(pairs, paths, m, 0, OLD_FOLDER);
  }

  /** A pair is kept verbatim exactly when it claimed nothing, and then it wins over a folder claim. */
  lemma PairKeptIffItClaimsNothing(pairs: seq<Rename>, paths: seq<Path>, m: map<Path, Path>, i: nat)
    requires DistinctOlds(pairs) && Expansion(pairs, paths, m) && i < |pairs|
    ensures !Expanded(pairs, i, paths) ==> pairs[i].from in m && m[pairs[i].from] == pairs[i].to
    ensures Expanded(pairs, i, paths) && pairs[i].from in m ==>
              pairs[i].from in paths && IsClaimed(pairs, pairs[i].from)
  {
    if !Expanded(pairs, i, paths) {
      assert Survives(pairs, i, paths);
    } else if pairs[i].from in m {
      assert !exists j: nat :: Survives(pairs, j, paths) && pairs[j].from == pairs[i].from;
    }
  }

  /** The result does not depend on the order of the batch or of the known paths. */
  lemma ExpansionIgnoresOrder(
      pairs: seq<Rename>, pairs': seq<Rename>, paths: seq<Path>, paths': seq<Path>,
      m: map<Path, Path>, m': map<Path, Path>)
    requires DistinctOlds(pairs) && DistinctOlds(pairs')
    requires forall r :: r in pairs <==> r in pairs'
    requires forall p :: p in paths <==> p in paths'
    requires Expansion(pairs, paths, m) && Expansion(pairs', paths', m')
    ensures m == m'
  {
    ExpansionIncluded(pairs, pairs', paths, paths', m, m');
    ExpansionIncluded(pairs', pairs, paths', paths, m', m);
  }

  lemma ExpansionIncluded(
      pairs: seq<Rename>, pairs': seq<Rename>, paths: seq<Path>, paths': seq<Path>,
      m: map<Path, Path>, m': map<Path, Path>)
    requires DistinctOlds(pairs) && DistinctOlds(pairs')
    requires forall r :: r in pairs <==> r in pairs'
    requires forall p :: p in paths <==> p in paths'
    requires Expansion(pairs, paths, m) && Expansion(pairs', paths', m')
    ensures forall p :: p in m ==> p in m' && m'[p] == m[p]
  {
    forall p | p in m ensures p in m' && m'[p] == m[p] {
      if i: nat :| Survives(pairs, i, paths) && pairs[i].from == p {
        var i' := SurvivorTransfers(pairs, pairs', paths, paths', i);
      } else {
        var i: nat :| Claims(pairs, i, p);
        var i' := ClaimTransfers(pairs, pairs', i, p);
        if j': nat :| Survives(pairs', j', paths') && pairs'[j'].from == p {
          var j := SurvivorTransfers(pairs', pairs, paths', paths, j');
        }
      }
    }
  }

  lemma ClaimTransfers(pairs: seq<Rename>, pairs': seq<Rename>, i: nat, path: Path) returns (i': nat)
    requires DistinctOlds(pairs')
    requires forall r :: r in pairs <==> r in pairs'
    requires Claims(pairs, i, path)
    ensures i' < |pairs'| && pairs'[i'] == pairs[i] && Claims(pairs', i', path)
  {
    assert pairs[i] in pairs';
    i' :| 0 <= i' < |pairs'| && pairs'[i'] == pairs[i];
    forall j | 0 <= j < |pairs'| && StrictlyUnder(path, pairs'[j].from)
      ensures |pairs'[j].from| < |pairs'[i'].from| || (|pairs'[j].from| == |pairs'[i'].from| && j <= i')
    {
      assert pairs'[j] in pairs;
      var k :| 0 <= k < |pairs| && pairs[k] == pairs'[j];
    }
  }

  lemma SurvivorTransfers(
      pairs: seq<Rename>, pairs': seq<Rename>, paths: seq<Path>, paths': seq<Path>, i: nat) returns (i': nat)
    requires DistinctOlds(pairs) && DistinctOlds(pairs')
    requires forall r :: r in pairs <==> r in pairs'
    requires forall p :: p in paths <==> p in paths'
    requires Survives(pairs, i, paths)
    ensures i' < |pairs'| && pairs'[i'] == pairs[i] && Survives(pairs', i', paths')
  {
    assert pairs[i] in pairs';
    i' :| 0 <= i' < |pairs'| && pairs'[i'] == pairs[i];
    ExpandedTransfers(pairs, pairs', paths, paths', i, i');
  }

  lemma ExpandedTransfers(
      pairs: seq<Rename>, pairs': seq<Rename>, paths: seq<Path>, paths': seq<Path>, i: nat, i': nat)
    requires DistinctOlds(pairs)
    requires forall r :: r in pairs <==> r in pairs'
    requires forall p :: p in paths <==> p in paths'
    requires i < |pairs| && i' < |pairs'| && pairs[i] == pairs'[i']
    ensures Expanded(pairs', i', paths') ==> Expanded(pairs, i, paths)
  {
    if k :| 0 <= k < |paths'| && Claims(pairs', i', paths'[k]) {
      var back := ClaimTransfers(pairs', pairs, i', paths'[k]);
      assert back == i && paths'[k] in paths;
    }
  }
}
