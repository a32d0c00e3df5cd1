/**
 * Renames that `Analysis::source_rename_edits` of `src/incremental.rs` does not
 * carry over into the literals: one case for each way of failing, in a
 * workspace at the root of the file system. A file that does not parse is left
 * out of the graph, a target outside the workspace is unknown to the map, and a
 * literal that looks rooted is recorded under another path than it reads.
 */
module RenameCases {
  import opened Common
  import opened Paths
  import opened Renames
  import opened Spellings
  import opened SourceEdits
  import Strings

  /** A name that is not mistaken for a rooted spelling and holds no quote. */
  predicate IsPlain(name: Name) {
    IsRelativeSpelling(name) && '"' !in name
  }

  function Quoted(spelling: string): Literal {
    Literal(Range(0, |spelling| + 2), '"', spelling)
  }

  lemma IsItself(path: Path)
    requires IsNormal(path) && IsAbsolute(path)
    ensures Normalize([Root], path) == path
  {
    NormalizedIffFixed([Root], path);
  }

  lemma NameReadsAsItself(name: Name)
    ensures PathOf(name) == [Normal(name)]
  {
    assert Segments([Normal(name)]) == [name];
    RenderReadsBack([Normal(name)]);
  }

  lemma OnePair(from: Path, to: Path)
    requires IsNormal(from) && IsAbsolute(from) && IsNormal(to) && IsAbsolute(to) && from != to
    ensures Pairs([Root], [Rename(from, to)]) == [Rename(from, to)]
  {
    IsItself(from);
    IsItself(to);
    assert [Rename(from, to)][1..] == [];
    assert Pairs([Root], []) == [];
  }

  /** What a batch of one pair does to a path. */
  lemma OnePairMoves(r: Rename, path: Path)
    ensures Destination([r], path) == if AtOrUnder(path, r.from) then Moved(r, path) else path
  {
    assert DeepestBelow([r], path, 0) == None;
    assert DeepestBelow([r], path, 1) == if AtOrUnder(path, r.from) then Some(0) else None;
  }

  /** A path that the one pair does not concern is not mapped. */
  lemma OnePairLeaves(r: Rename, paths: seq<Path>, m: map<Path, Path>, path: Path)
    requires Expansion([r], paths, m) && !AtOrUnder(path, r.from)
    ensures path !in m && Destination([r], path) == path
  {
    OnePairMoves(r, path);
    assert forall i: nat :: Survives([r], i, paths) ==> [r][i].from == r.from;
    assert forall i: nat :: !Claims([r], i, path);
  }

  /** The file `name` at the root. */
  function AtRoot(name: Name): Path {
    [Root, Normal(name)]
  }

  lemma ReadsAtRoot(name: Name)
    requires IsPlain(name)
    ensures Reads([Root], Some([Root]), name) == AtRoot(name)
  {
    NameReadsAsItself(name);
    assert [Root] + [Normal(name)] == AtRoot(name);
    IsItself(AtRoot(name));
  }

  lemma RootHolds(name: Name)
    ensures Normalize([Root], AtRoot(name)) == AtRoot(name) && Parent(AtRoot(name)) == Some([Root])
  {
    IsItself(AtRoot(name));
    assert AtRoot(name)[..1] == [Root];
  }

  // --- A file with parse errors ------------------------------------------------------

  /** `/f`, which does not parse, sources `a` next to it. */
  function BrokenSourcer(f: Name, a: Name): Workspace {
    Workspace([Root], [AtRoot(f), AtRoot(a)], {AtRoot(a)}, map[AtRoot(f) := [Quoted(a)]])
  }

  /** Renaming `/a` to `/b` leaves the literal of a file with parse errors behind. */
  lemma ParseErrorSourcerIsMissed(f: Name, a: Name, b: Name, m: map<Path, Path>, edits: seq<Edit>)
    requires f != a && a != b && IsPlain(a)
    requires var ws, renames := BrokenSourcer(f, a), [Rename(AtRoot(a), AtRoot(b))];
      && Expansion(Pairs(ws.cwd, renames), Normalized(ws.cwd, Known(ws)), m)
      && IsRewriting(ws, m, Candidates(ws, m), edits)
    ensures !FollowsBatch(BrokenSourcer(f, a), [Rename(AtRoot(a), AtRoot(b))], edits, AtRoot(f), Quoted(a))
  {
    var ws, r := BrokenSourcer(f, a), Rename(AtRoot(a), AtRoot(b));
    OnePair(r.from, r.to);
    RootHolds(f);
    BrokenSourcerReads(f, a);
    OnePairLeaves(r, Normalized(ws.cwd, Known(ws)), m, AtRoot(f));
    OnePairMoves(r, r.from);
    WrittenIs(ws, m, edits, AtRoot(f), Quoted(a));
    ReadsAtRoot(a);
  }

  lemma BrokenSourcerReads(f: Name, a: Name)
    requires IsPlain(a)
    ensures var ws, file, literal := BrokenSourcer(f, a), AtRoot(f), Quoted(a);
      ws.LiteralsOf(file) == [literal] && IsOrdinary(ws, file, literal) && ws.Target(file, literal) == AtRoot(a)
  {
    RootHolds(f);
    ReadsAtRoot(a);
  }

  // --- A target nobody knows, in a folder that moves --------------------------------------

  /** The file `name` in the folder `dir`. */
  function InFolder(dir: Name, name: Name): Path {
    [Root, Normal(dir), Normal(name)]
  }

  lemma FolderHolds(dir: Name, name: Name)
    ensures Normalize([Root], InFolder(dir, name)) == InFolder(dir, name)
    ensures Parent(InFolder(dir, name)) == Some(AtRoot(dir))
    ensures AtRoot(dir) + [Normal(name)] == InFolder(dir, name)
  {
    IsItself(InFolder(dir, name));
    assert InFolder(dir, name)[..2] == AtRoot(dir);
  }

  lemma ReadsInFolder(dir: Name, name: Name)
    requires IsPlain(name)
    ensures Reads([Root], Some(AtRoot(dir)), name) == InFolder(dir, name)
  {
    NameReadsAsItself(name);
    FolderHolds(dir, name);
  }

  lemma FolderMoves(a: Name, c: Name, name: Name)
    requires a != c
    ensures StrictlyUnder(InFolder(a, name), AtRoot(a))
    ensures Rebased(Rename(AtRoot(a), AtRoot(c)), InFolder(a, name)) == InFolder(c, name)
    ensures Destination([Rename(AtRoot(a), AtRoot(c))], InFolder(a, name)) == InFolder(c, name)
    ensures Claims([Rename(AtRoot(a), AtRoot(c))], 0, InFolder(a, name))
  {
    FolderHolds(a, name);
    FolderHolds(c, name);
    var path := InFolder(a, name);
    assert path[..2] == AtRoot(a) && path[2..] == [Normal(name)];
    OnePairMoves(Rename(AtRoot(a), AtRoot(c)), path);
  }

  /** The way from one folder at the root to a file in another. */
  lemma AcrossFolders(a: Name, c: Name, x: Name)
    requires a != c && '"' !in a && '"' !in x
    ensures Relative(AtRoot(c), InFolder(a, x)) == Some([ParentDir, Normal(a), Normal(x)])
    ensures var spelling := Render([ParentDir, Normal(a), Normal(x)]);
      IsRelativeSpelling(spelling) && '"' !in spelling
  {
    var base, target := AtRoot(c), InFolder(a, x);
    assert CommonPrefix(base, target) == 1;
    assert base[1..] == [Normal(c)] && target[1..] == [Normal(a), Normal(x)];
    assert StepsUp([Normal(c)][1..]) == Some([]);
    assert [ParentDir] + [] == [ParentDir];
    PushAllWalks([ParentDir], [Normal(a), Normal(x)]);
    assert [ParentDir] + [Normal(a), Normal(x)] == [ParentDir, Normal(a), Normal(x)];
    assert Segments([ParentDir, Normal(a), Normal(x)]) == ["..", a, x];
    assert ["..", a, x][1..] == [a, x] && [a, x][1..] == [x];
    assert Strings.Join([x], '/') == x;
    assert Strings.Join([a, x], '/') == a + ['/'] + x;
    assert Strings.Join(["..", a, x], '/') == ".." + ['/'] + (a + ['/'] + x);
    assert Render([ParentDir, Normal(a), Normal(x)]) == ".." + ['/'] + (a + ['/'] + x);
  }

  /** `/a/f`, which does not parse, sources `x` next to it, a file outside the workspace. */
  function LoneSourcer(a: Name, f: Name, x: Name): Workspace {
    Workspace([Root], [InFolder(a, f)], {}, map[InFolder(a, f) := [Quoted(x)]])
  }

  /**
   * Renaming the folder `/a` to `/c` moves file and target together, so the
   * literal was right as written; it is rewritten to lead back into `/a`.
   */
  lemma UnknownTargetIsAimedBack(a: Name, c: Name, f: Name, x: Name, m: map<Path, Path>, edits: seq<Edit>)
    requires a != c && f != x && '"' !in a && IsPlain(x)
    requires var ws, renames := LoneSourcer(a, f, x), [Rename(AtRoot(a), AtRoot(c))];
      && Expansion(Pairs(ws.cwd, renames), Normalized(ws.cwd, Known(ws)), m)
      && IsRewriting(ws, m, Candidates(ws, m), edits)
    ensures var ws, renames := LoneSourcer(a, f, x), [Rename(AtRoot(a), AtRoot(c))];
      && !Breaks(ws, renames, InFolder(a, f), Quoted(x))
      && !FollowsBatch(ws, renames, edits, InFolder(a, f), Quoted(x))
  {
    var ws, r := LoneSourcer(a, f, x), Rename(AtRoot(a), AtRoot(c));
    OneRenameIsOrdinary(ws, r);
    LoneSourcerReads(a, f, x);
    LoneSourcerIsMapped(a, c, f, x, m);
    LiteralFollowsTheBatchIff(ws, [r], m, edits, InFolder(a, f), Quoted(x));
    LoneSourcerHome(a, c, f, x, m);
    AimedBackIsUsable(a, c, x);
    MapIsAim(ws, [r], m, InFolder(a, f), Quoted(x));
    LookedAtIsCandidate(ws, [r], m, InFolder(a, f));
    CandidateStaysLost(ws, [r], edits, InFolder(a, f), Quoted(x));
  }

  /** The respelling that leads back into the old folder is read as it is meant. */
  lemma AimedBackIsUsable(a: Name, c: Name, x: Name)
    requires a != c && '"' !in a && IsPlain(x)
    ensures !Misread([Root], AtRoot(c), '"', Respelled(Some(AtRoot(c)), Quoted(x), InFolder(a, x)))
  {
    AcrossFolders(a, c, x);
  }

  lemma OneRenameIsOrdinary(ws: Workspace, r: Rename)
    requires ws.cwd == [Root] && EndsInName(r.from) && EndsInName(r.to) && r.from != r.to
    requires NormalAbsolute(r.from) && NormalAbsolute(r.to)
    ensures Ordinary(ws, [r]) && Pairs(ws.cwd, [r]) == [r]
  {
    OnePair(r.from, r.to);
  }

  /** A candidate whose target the map loses does not follow, as long as the respelling is usable. */
  lemma CandidateStaysLost(
      ws: Workspace, renames: seq<Rename>, edits: seq<Edit>, file: Path, literal: Literal)
    requires FollowsIff(ws, renames, edits, file, literal) && IsLookedAt(ws, renames, file)
    requires HomeDir(ws, renames, file).Some? && AimDir(ws, renames, file) == HomeDir(ws, renames, file)
    requires !Followed(Pairs(ws.cwd, renames), Normalized(ws.cwd, Known(ws)), ws.Target(file, literal))
    requires var dir := HomeDir(ws, renames, file);
      !Misread(ws.cwd, dir.value, literal.quote, Respelled(dir, literal, AimAt(ws, renames, file, literal)))
    ensures !FollowsBatch(ws, renames, edits, file, literal)
  {
  }

  /** Where file and target go, and what the map makes of them. */
  lemma LoneSourcerHome(a: Name, c: Name, f: Name, x: Name, m: map<Path, Path>)
    requires a != c && f != x && IsPlain(x) && Expansion([Rename(AtRoot(a), AtRoot(c))], [InFolder(a, f)], m)
    requires Pairs([Root], [Rename(AtRoot(a), AtRoot(c))]) == [Rename(AtRoot(a), AtRoot(c))]
    ensures var ws, renames := LoneSourcer(a, f, x), [Rename(AtRoot(a), AtRoot(c))];
            var file, literal := InFolder(a, f), Quoted(x);
      && HomeDir(ws, renames, file) == Some(AtRoot(c)) == NewDir(ws, m, file)
      && NewTarget(ws, m, file, literal) == InFolder(a, x)
      && IsCandidate(ws, m, file) && !Breaks(ws, renames, file, literal)
  {
    LoneSourcerReads(a, f, x);
    LoneSourcerIsMapped(a, c, f, x, m);
    FolderMoves(a, c, f);
    FolderMoves(a, c, x);
    FolderHolds(a, f);
    FolderHolds(c, f);
    ReadsInFolder(c, x);
  }

  lemma LoneSourcerReads(a: Name, f: Name, x: Name)
    requires f != x && IsPlain(x)
    ensures var ws, file, literal := LoneSourcer(a, f, x), InFolder(a, f), Quoted(x);
      && ws.LiteralsOf(file) == [literal] && IsOrdinary(ws, file, literal)
      && ws.Target(file, literal) == InFolder(a, x)
      && Normalized(ws.cwd, Known(ws)) == [file]
  {
    FolderHolds(a, f);
    ReadsInFolder(a, x);
    assert TargetsOf(LoneSourcer(a, f, x), [InFolder(a, f)][1..]) == [];
    assert Known(LoneSourcer(a, f, x)) == [InFolder(a, f)];
  }

  /** The map moves the file and knows nothing of its target. */
  lemma LoneSourcerIsMapped(a: Name, c: Name, f: Name, x: Name, m: map<Path, Path>)
    requires a != c && f != x && Expansion([Rename(AtRoot(a), AtRoot(c))], [InFolder(a, f)], m)
    ensures InFolder(a, f) in m && m[InFolder(a, f)] == InFolder(c, f)
    ensures InFolder(a, x) !in m
    ensures Followed([Rename(AtRoot(a), AtRoot(c))], [InFolder(a, f)], InFolder(a, f))
    ensures !Followed([Rename(AtRoot(a), AtRoot(c))], [InFolder(a, f)], InFolder(a, x))
  {
    var r := Rename(AtRoot(a), AtRoot(c));
    FolderMoves(a, c, f);
    FolderMoves(a, c, x);
    assert [InFolder(a, f)][0] == InFolder(a, f);
    assert Expanded([r], 0, [InFolder(a, f)]);
    assert forall i: nat :: !Survives([r], i, [InFolder(a, f)]);
    FollowedIfUnnamed([r], [InFolder(a, f)], InFolder(a, f));
    FollowedIfUnnamed([r], [InFolder(a, f)], InFolder(a, x));
  }

  // --- A spelling that looks rooted -------------------------------------------------------------

  /** `/d/f`, which parses, sources `t`, whose name looks like one on a drive. */
  function DriveSourcer(d: Name, f: Name, t: Name): Workspace {
    Workspace([Root], [InFolder(d, f)], {InFolder(d, f)}, map[InFolder(d, f) := [Quoted(t)]])
  }

  predicate LooksLikeDrive(name: Name) {
    |name| > 1 && IsLetter(name[0]) && name[1] == ':'
  }

  /**
   * The literal reads `/t`, while the project graph has the file sourcing `/d/t`:
   * renaming `/t` to `/u` leaves the literal behind.
   */
  lemma RootedLookingLiteralIsMissed(d: Name, f: Name, t: Name, u: Name, m: map<Path, Path>, edits: seq<Edit>)
    requires LooksLikeDrive(t) && t != u && t != d
    requires var ws, renames := DriveSourcer(d, f, t), [Rename(AtRoot(t), AtRoot(u))];
      && Expansion(Pairs(ws.cwd, renames), Normalized(ws.cwd, Known(ws)), m)
      && IsRewriting(ws, m, Candidates(ws, m), edits)
    ensures !FollowsBatch(DriveSourcer(d, f, t), [Rename(AtRoot(t), AtRoot(u))], edits, InFolder(d, f), Quoted(t))
  {
    var ws, r := DriveSourcer(d, f, t), Rename(AtRoot(t), AtRoot(u));
    OneRenameIsOrdinary(ws, r);
    DriveSourcerReads(d, f, t);
    DriveSourcerStays(d, f, t, u, m);
    WrittenIs(ws, m, edits, InFolder(d, f), Quoted(t));
  }

  /** Neither the file nor what the graph has it sourcing is mapped, but what it reads moves. */
  lemma DriveSourcerStays(d: Name, f: Name, t: Name, u: Name, m: map<Path, Path>)
    requires LooksLikeDrive(t) && t != u && t != d
    requires Pairs([Root], [Rename(AtRoot(t), AtRoot(u))]) == [Rename(AtRoot(t), AtRoot(u))]
    requires var ws := DriveSourcer(d, f, t);
      Expansion([Rename(AtRoot(t), AtRoot(u))], Normalized(ws.cwd, Known(ws)), m)
    ensures var ws, renames := DriveSourcer(d, f, t), [Rename(AtRoot(t), AtRoot(u))];
      && !IsCandidate(ws, m, InFolder(d, f))
      && HomeDir(ws, renames, InFolder(d, f)) == Some(AtRoot(d))
      && Goal(ws, renames, InFolder(d, f), Quoted(t)) == AtRoot(u)
  {
    var ws, r := DriveSourcer(d, f, t), Rename(AtRoot(t), AtRoot(u));
    var paths := Normalized(ws.cwd, Known(ws));
    FolderHolds(d, f);
    DriveSourcerReads(d, f, t);
    assert InFolder(d, f)[1] != AtRoot(t)[1] && InFolder(d, t)[1] != AtRoot(t)[1];
    OnePairLeaves(r, paths, m, InFolder(d, f));
    OnePairLeaves(r, paths, m, InFolder(d, t));
    OnePairMoves(r, r.from);
  }

  lemma DriveSourcerReads(d: Name, f: Name, t: Name)
    requires LooksLikeDrive(t)
    ensures var ws, file, literal := DriveSourcer(d, f, t), InFolder(d, f), Quoted(t);
      && ws.LiteralsOf(file) == [literal] && IsOrdinary(ws, file, literal)
      && ws.Target(file, literal) == AtRoot(t) && ws.GraphTarget(file, literal) == InFolder(d, t)
      && Reads([Root], Some(AtRoot(d)), t) == AtRoot(t)
  {
    FolderHolds(d, f);
    FolderHolds(d, t);
    NameReadsAsItself(t);
    assert [Root] + [Normal(t)] == AtRoot(t);
    RootHolds(t);
    assert Absolute([Root], [Normal(t)]) == AtRoot(t);
  }
}
