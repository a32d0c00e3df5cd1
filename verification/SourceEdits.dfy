/**
 * `Analysis::source_rename_edits` of `src/incremental.rs`: the edits that keep
 * `source("...")` literals leading to their targets when files and folders are
 * renamed. Which files are looked at, how a literal is respelled, and, against
 * the batch of renames, exactly which literals name their targets afterwards.
 */
module SourceEdits {
  import opened Common
  import opened Paths
  import opened Renames
  import opened Spellings

  /** A `source()` string: its token's range, its quote, and the text between the quotes. */
  datatype Literal = Literal(range: Range, quote: char, spelling: string)

  datatype Edit = Edit(sourcer: Path, range: Range, text: string)

  /**
   * What the database knows: the members' paths as first spelled, which of them
   * parse cleanly, and the literals of every tracked file by normalized path.
   */
  datatype Workspace = Workspace(
    cwd: Path,
    members: seq<Path>,
    clean: set<Path>,
    literals: map<Path, seq<Literal>>)
  {
    function LiteralsOf(file: Path): seq<Literal> {
      var key := Normalize(cwd, file);
      if key in literals then literals[key] else []
    }

    /** The target of a literal as the file itself reads it. */
    function Target(file: Path, literal: Literal): Path {
      Reads(cwd, Parent(file), literal.spelling)
    }

    /**
     * The target as the project graph records it: relative means "not starting
     * with the separator" there, so a drive-letter spelling counts as relative.
     */
    function GraphTarget(file: Path, literal: Literal): Path {
      if Parent(file).Some? then Normalize(cwd, JoinPath(Parent(file).value, PathOf(literal.spelling)))
      else Normalize(cwd, PathOf(literal.spelling))
    }

    /** The reverse source graph, which sees only members that parse cleanly. */
    predicate Sources(file: Path, target: Path) {
      file in members && file in clean
      && exists literal <- LiteralsOf(file) :: GraphTarget(file, literal) == target
    }
  }

  function GraphTargets(ws: Workspace, file: Path, literals: seq<Literal>): (targets: seq<Path>)
    ensures forall t :: t in targets <==> exists literal <- literals :: ws.GraphTarget(file, literal) == t
  {
    if |literals| == 0 then []
    else [ws.GraphTarget(file, literals[0])] + GraphTargets(ws, file, literals[1..])
  }

  function TargetsOf(ws: Workspace, files: seq<Path>): (targets: seq<Path>)
    ensures forall t :: t in targets <==>
      exists file <- files :: file in ws.clean
        && exists literal <- ws.LiteralsOf(file) :: ws.GraphTarget(file, literal) == t
  {
    if |files| == 0 then []
    else
      (if files[0] in ws.clean then GraphTargets(ws, files[0], ws.LiteralsOf(files[0])) else [])
      + TargetsOf(ws, files[1..])
  }

  /** The paths a rename could be about: members and sourced targets. */
  function Known(ws: Workspace): seq<Path> {
    ws.members + TargetsOf(ws, ws.members)
  }

  /** A file whose literals may need rewriting: it moves, or it sources something that does. */
  predicate IsCandidate(ws: Workspace, m: map<Path, Path>, file: Path) {
    && file in ws.members
    && (Normalize(ws.cwd, file) in m || exists target <- m :: ws.Sources(file, target))
  }

  function Candidates(ws: Workspace, m: map<Path, Path>): (files: set<Path>)
    ensures forall file :: file in files <==> IsCandidate(ws, m, file)
  {
    set file <- ws.members | IsCandidate(ws, m, file)
  }

  function NewDir(ws: Workspace, m: map<Path, Path>, file: Path): Option<Path> {
    Parent(Image(m, Normalize(ws.cwd, file)))
  }

  function NewTarget(ws: Workspace, m: map<Path, Path>, file: Path, literal: Literal): Path {
    Image(m, ws.Target(file, literal))
  }

  /** The literal rewritten for its new home, keeping its relative or rooted shape. */
  function Respelled(dir: Option<Path>, literal: Literal, target: Path): string {
    if IsRelativeSpelling(literal.spelling) && dir.Some? && Relative(dir.value, target).Some? then
      Render(Relative(dir.value, target).value)
    else Render(target)
  }

  /** The edit the code emits for one literal, if any. */
  function EditFor(ws: Workspace, m: map<Path, Path>, file: Path, literal: Literal): Option<Edit> {
    var dir := NewDir(ws, m, file);
    var target := NewTarget(ws, m, file, literal);
    var settled := if IsRelativeSpelling(literal.spelling)
      then dir.Some? && Reads(ws.cwd, dir, literal.spelling) == target
      else Reads(ws.cwd, dir, literal.spelling) == target;
    var spelling := Respelled(dir, literal, target);
    if settled || spelling == literal.spelling || literal.quote in spelling then None
    else Some(Edit(file, literal.range, [literal.quote] + spelling + [literal.quote]))
  }

  function EditsIn(ws: Workspace, m: map<Path, Path>, file: Path, literals: seq<Literal>): seq<Edit> {
    if |literals| == 0 then []
    else
      EditsIn(ws, m, file, literals[..|literals| - 1])
      + (match EditFor(ws, m, file, literals[|literals| - 1]) case Some(e) => [e] case None => [])
  }

  function EditsFor(ws: Workspace, m: map<Path, Path>, files: seq<Path>): seq<Edit> {
    if |files| == 0 then []
    else
      EditsFor(ws, m, files[..|files| - 1])
      + EditsIn(ws, m, files[|files| - 1], ws.LiteralsOf(files[|files| - 1]))
  }

  ghost predicate Enumerates(files: seq<Path>, all: set<Path>) {
    && (forall f :: f in files <==> f in all)
    && (forall i, j :: 0 <= i < j < |files| ==> files[i] != files[j])
  }

  /** The edits of every candidate file's literals, each file once. */
  ghost predicate IsRewriting(ws: Workspace, m: map<Path, Path>, candidates: set<Path>, edits: seq<Edit>) {
    exists files: seq<Path> :: Enumerates(files, candidates) && edits == EditsFor(ws, m, files)
  }

  /** The edit replaces a literal of its file whole, by another in the same quotes. */
  ghost predicate ReplacesLiteral(ws: Workspace, e: Edit) {
    && e.sourcer in ws.members
    && exists literal :: literal in ws.LiteralsOf(e.sourcer) && IsQuotedFor(literal, e)
  }

  predicate IsQuotedFor(literal: Literal, e: Edit) {
    && e.range == literal.range && |e.text| >= 2
    && e.text[0] == literal.quote && e.text[|e.text| - 1] == literal.quote
    && literal.quote !in e.text[1..|e.text| - 1] && e.text[1..|e.text| - 1] != literal.spelling
  }

  /** Every literal of every member ends up following the batch exactly where `FollowsIff` says. */
  method SourceRenameEdits(ws: Workspace, renames: seq<Rename>)
    returns (edits: seq<Edit>, m: map<Path, Path>)
    ensures Expansion(Pairs(ws.cwd, renames), Normalized(ws.cwd, Known(ws)), m)
    ensures FansOut(ws.cwd, renames, Known(ws), m)
    ensures IsRewriting(ws, m, Candidates(ws, m), edits)
    ensures forall e :: e in edits ==> ReplacesLiteral(ws, e)
    ensures Ordinary(ws, renames) ==>
      forall file, literal :: file in ws.members && IsOrdinary(ws, file, literal) ==>
        FollowsIff(ws, renames, edits, file, literal)
  {
    m := ExpandDirRenames(ws.cwd, renames, Known(ws));
    edits := RewriteAll(ws, m, Candidates(ws, m));
    forall e | e in edits ensures ReplacesLiteral(ws, e) {
      EditReplacesLiteral(ws, m, edits, e);
    }
    forall file, literal | Ordinary(ws, renames) && file in ws.members && IsOrdinary(ws, file, literal)
      ensures FollowsIff(ws, renames, edits, file, literal)
    {
      LiteralFollowsTheBatchIff(ws, renames, m, edits, file, literal);
    }
  }

  /** The loop over the candidate files, in some order. */
  method RewriteAll(ws: Workspace, m: map<Path, Path>, candidates: set<Path>) returns (edits: seq<Edit>)
    ensures IsRewriting(ws, m, candidates, edits)
  {
    edits := [];
    var todo := candidates;
    ghost var files: seq<Path> := [];
    while todo != {}
      invariant todo <= candidates
      invariant Enumerates(files, candidates - todo)
      invariant edits == EditsFor(ws, m, files)
      decreases |todo|
    {
      var file :| file in todo;
      todo := todo - {file};
      var rewritten := RewriteFile(ws, m, file);
      edits := edits + rewritten;
      assert (files + [file])[..|files|] == files;
      files := files + [file];
    }
    assert Enumerates(files, candidates);
  }

  /** The loop over one file's literals. */
  method RewriteFile(ws: Workspace, m: map<Path, Path>, file: Path) returns (edits: seq<Edit>)
    ensures edits == EditsIn(ws, m, file, ws.LiteralsOf(file))
  {
    var literals := ws.LiteralsOf(file);
    edits := [];
    for i := 0 to |literals|
      invariant edits == EditsIn(ws, m, file, literals[..i])
    {
      EditsInGrow(ws, m, file, literals, i);
      var edit := Rewrite(ws, m, file, literals[i]);
      if edit.Some? {
        edits := edits + [edit.value];
      }
    }
    assert literals[..|literals|] == literals;
  }

  lemma EditsInGrow(ws: Workspace, m: map<Path, Path>, file: Path, literals: seq<Literal>, i: nat)
    requires i < |literals|
    ensures EditsIn(ws, m, file, literals[..i + 1])
         == match EditFor(ws, m, file, literals[i])
            case Some(edit) => EditsIn(ws, m, file, literals[..i]) + [edit]
            case None => EditsIn(ws, m, file, literals[..i])
  {
    assert literals[..i + 1][..i] == literals[..i];
  }

  method Rewrite(ws: Workspace, m: map<Path, Path>, file: Path, literal: Literal) returns (edit: Option<Edit>)
    ensures edit == EditFor(ws, m, file, literal)
  {
    var dir := NewDir(ws, m, file);
    var target := NewTarget(ws, m, file, literal);
    var wasRelative := IsRelativeSpelling(literal.spelling);
    if wasRelative {
      if dir.Some? {
        var resolved := NormalizePath(ws.cwd, JoinPath(dir.value, PathOf(literal.spelling)));
        if resolved == target {
          return None;
        }
      }
    } else {
      var resolved := NormalizePath(ws.cwd, PathOf(literal.spelling));
      if resolved == target {
        return None;
      }
    }
    var spelling := Render(target);
    if wasRelative && dir.Some? {
      var rel := RelativePath(dir.value, target);
      if rel.Some? {
        spelling := Render(rel.value);
      }
    }
    if spelling == literal.spelling || literal.quote in spelling {
      return None;
    }
    return Some(Edit(file, literal.range, [literal.quote] + spelling + [literal.quote]));
  }

  // --- What the edits achieve --------------------------------------------------

  /** The literal's text after the edits are applied. */
  function SpellingAfter(ws: Workspace, m: map<Path, Path>, file: Path, literal: Literal): string {
    match EditFor(ws, m, file, literal)
    case Some(edit) => edit.text[1..|edit.text| - 1]
    case None => literal.spelling
  }

  ghost predicate NormalAbsolute(path: Path) {
    IsNormal(path) && IsAbsolute(path)
  }

  /**
   * A relative path whose first name looks like a drive or starts with a
   * backslash: it is read from the working directory instead.
   */
  predicate Strays(cwd: Path, dir: Path, spelling: string) {
    !IsRelativeSpelling(spelling) && !IsAbsolute(PathOf(spelling)) && dir != Normalize(cwd, cwd)
  }

  /** Why a respelling cannot be used: it carries the literal's quote, or it strays. */
  predicate Misread(cwd: Path, dir: Path, quote: char, spelling: string) {
    quote in spelling || Strays(cwd, dir, spelling)
  }

  /**
   * Against the map: the text a candidate's literal ends up with, read from where
   * the map puts the file, names where the map puts the target exactly when it
   * already did or the respelling is read as intended. A literal that already
   * did is left alone.
   */
  lemma LiteralAimsAtTheMap(ws: Workspace, m: map<Path, Path>, file: Path, literal: Literal)
    requires IsAbsolute(ws.cwd)
    requires NewDir(ws, m, file).Some? && NormalAbsolute(NewDir(ws, m, file).value)
    requires NormalAbsolute(NewTarget(ws, m, file, literal))
    ensures var dir := NewDir(ws, m, file);
            var target := NewTarget(ws, m, file, literal);
            var spelling := Respelled(dir, literal, target);
            var settled := Reads(ws.cwd, dir, literal.spelling) == target;
      && SpellingAfter(ws, m, file, literal)
         == (if settled || literal.quote in spelling then literal.spelling else spelling)
      && (Reads(ws.cwd, dir, spelling) == target <==> !Strays(ws.cwd, dir.value, spelling))
  {
    var dir := NewDir(ws, m, file).value;
    var target := NewTarget(ws, m, file, literal);
    var spelling := Respelled(Some(dir), literal, target);
    RespelledReads(ws.cwd, dir, literal, target);
    if EditFor(ws, m, file, literal).Some? {
      var text := EditFor(ws, m, file, literal).value.text;
      assert text[1..|text| - 1] == spelling;
    }
  }

  /**
   * Renaming a sibling to a drive-like name such as `c:a.R` breaks every relative
   * literal that named it, with no quote involved, unless the file sits in the
   * working directory.
   */
  lemma DriveLikeNameIsMisread(cwd: Path, dir: Path, literal: Literal, name: Name)
    requires IsAbsolute(cwd) && NormalAbsolute(dir) && dir != Normalize(cwd, cwd)
    requires IsRelativeSpelling(literal.spelling)
    requires |name| > 1 && IsLetter(name[0]) && name[1] == ':'
    ensures Respelled(Some(dir), literal, dir + [Normal(name)]) == name
    ensures Reads(cwd, Some(dir), name) != dir + [Normal(name)]
  {
    RelativeToSibling(dir, Normal(name));
    assert Segments([Normal(name)]) == [name];
    RenderReadsBack([Normal(name)]);
    RespelledReads(cwd, dir, literal, dir + [Normal(name)]);
  }

  /** A relative literal stays relative if the target can be told from the file's directory, a rooted one rooted. */
  lemma RespellingKeepsShape(dir: Path, literal: Literal, target: Path)
    requires NormalAbsolute(dir) && NormalAbsolute(target)
    ensures PathOf(Respelled(Some(dir), literal, target)) ==
      if IsRelativeSpelling(literal.spelling) && Relative(dir, target).Some? then Relative(dir, target).value
      else target
    ensures PathOf(Respelled(None, literal, target)) == target
  {
    RenderReadsBack(target);
    if Relative(dir, target).Some? {
      RelativeLeadsToTarget(dir, dir, target);
      RenderReadsBack(Relative(dir, target).value);
    }
  }

  lemma RelativeToSibling(dir: Path, name: Component)
    requires name.Normal?
    ensures Relative(dir, dir + [name]) == Some([name])
  {
    assert dir[|dir|..] == [] && (dir + [name])[|dir|..] == [name];
    assert PushAll([], [name]) == PushAll([name], []);
  }

  lemma RespelledReads(cwd: Path, dir: Path, literal: Literal, target: Path)
    requires IsAbsolute(cwd) && NormalAbsolute(dir) && NormalAbsolute(target)
    ensures var spelling := Respelled(Some(dir), literal, target);
      Reads(cwd, Some(dir), spelling) == target
      <==> IsRelativeSpelling(spelling) || IsAbsolute(PathOf(spelling)) || dir == Normalize(cwd, cwd)
  {
    var spelling := Respelled(Some(dir), literal, target);
    NormalizedIffFixed(cwd, target);
    if IsRelativeSpelling(literal.spelling) && Relative(dir, target).Some? {
      var rel := Relative(dir, target).value;
      RelativeLeadsToTarget(cwd, dir, target);
      RenderReadsBack(rel);
      if !IsRelativeSpelling(spelling) {
        RootedLookingRelative(rel);
        ReadFromWorkingDirectory(cwd, dir, target, rel);
      }
    } else {
      RenderReadsBack(target);
      RenderedAbsoluteIsRooted(target);
    }
  }

  /** A relative rendering that looks rooted starts with a name. */
  lemma RootedLookingRelative(rel: Path)
    requires NoRoot(rel)
    requires !IsRelativeSpelling(Render(rel))
    ensures |rel| > 0 && rel[0].Normal?
  {
    if |rel| > 0 {
      assert rel[0] in rel;
      JoinStart(Segments(rel));
    }
  }

  lemma ReadFromWorkingDirectory(cwd: Path, dir: Path, target: Path, rel: Path)
    requires IsAbsolute(cwd) && NormalAbsolute(dir) && NormalAbsolute(target)
    requires Relative(dir, target) == Some(rel) && |rel| > 0 && rel[0].Normal?
    ensures Normalize(cwd, rel) == target <==> dir == Normalize(cwd, cwd)
  {
    NoStepsUp(cwd, dir, target, rel);
    var base := Normalize(cwd, cwd);
    NormalizeIsIdempotent(cwd, cwd);
    NormalizeIsAbsolute(cwd, cwd);
    WalkConcat([], cwd, rel);
    AppendsCleanly(base, dir, rel);
    WalkNormal(base, rel);
    if base + rel == dir + rel {
      assert |base| == |dir|;
      assert base == (base + rel)[..|base|] && dir == (dir + rel)[..|dir|];
    }
  }

  /** A relative path that starts with a name lies below its base. */
  lemma NoStepsUp(cwd: Path, dir: Path, target: Path, rel: Path)
    requires IsAbsolute(cwd) && NormalAbsolute(dir) && NormalAbsolute(target)
    requires Relative(dir, target) == Some(rel) && |rel| > 0 && rel[0].Normal?
    ensures target == dir + rel
  {
    var n := CommonPrefix(dir, target);
    var left, rest := dir[n..], target[n..];
    assert dir[0] == target[0];
    NoCurDir(dir, n);
    StepsUpIff(left);
    StepsUpCount(left);
    PushAllWalks(StepsUp(left).value, rest);
    assert target == target[..n] + rest;
  }

  lemma {:induction false} StepsUpCount(left: Path)
    requires AllNames(left)
    ensures StepsUp(left).Some? && |StepsUp(left).value| == |left|
  {
    if |left| > 0 {
      assert left[0] in left;
      StepsUpCount(left[1..]);
    }
  }

  lemma AppendsCleanly(base: Path, dir: Path, rel: Path)
    requires NormalAbsolute(base) && NormalAbsolute(dir) && NormalAbsolute(dir + rel)
    requires |rel| > 0 && rel[0].Normal?
    ensures IsNormal(base + rel)
  {
    assert forall i :: 0 <= i < |rel| ==> rel[i] == (dir + rel)[|dir| + i];
    assert forall i :: 0 <= i < |rel| ==> !rel[i].ParentDir?;
  }

  // --- What the batch asks for ----------------------------------------------------

  predicate EndsInName(path: Path) {
    |path| > 0 && path[|path| - 1].Normal?
  }

  /** Distinct old paths, and only paths that end in a name, as those of renamed files and folders do. */
  ghost predicate Ordinary(ws: Workspace, renames: seq<Rename>) {
    && IsAbsolute(ws.cwd)
    && DistinctOlds(Pairs(ws.cwd, renames))
    && forall r :: r in Pairs(ws.cwd, renames) ==> EndsInName(r.from) && EndsInName(r.to)
  }

  /** A literal of a file, at a place of its own, that names something; the empty string is standard input. */
  ghost predicate IsOrdinary(ws: Workspace, file: Path, literal: Literal) {
    && EndsInName(file) && literal in ws.LiteralsOf(file) && ws.Target(file, literal) != []
    && forall other :: other in ws.LiteralsOf(file) && other.range == literal.range ==> other == literal
  }

  /** Where the batch takes a file, the directory it is read from there, and where it takes a literal's target. */
  function Home(ws: Workspace, renames: seq<Rename>, file: Path): Path {
    Destination(Pairs(ws.cwd, renames), Normalize(ws.cwd, file))
  }

  function HomeDir(ws: Workspace, renames: seq<Rename>, file: Path): Option<Path> {
    Parent(Home(ws, renames, file))
  }

  function Goal(ws: Workspace, renames: seq<Rename>, file: Path, literal: Literal): Path {
    Destination(Pairs(ws.cwd, renames), ws.Target(file, literal))
  }

  /** The edit made at a place, if any. */
  function EditAt(edits: seq<Edit>, file: Path, range: Range): (edit: Option<Edit>)
    ensures edit.Some? ==> edit.value in edits && edit.value.sourcer == file && edit.value.range == range
    ensures edit.None? ==> forall e :: e in edits ==> !(e.sourcer == file && e.range == range)
  {
    if |edits| == 0 then None
    else if edits[0].sourcer == file && edits[0].range == range then Some(edits[0])
    else EditAt(edits[1..], file, range)
  }

  /** The literal's text once the edits are applied. */
  function Written(edits: seq<Edit>, file: Path, literal: Literal): string {
    match EditAt(edits, file, literal.range)
    case Some(edit) => if |edit.text| > 1 then edit.text[1..|edit.text| - 1] else ""
    case None => literal.spelling
  }

  /** Once file and target are where the batch puts them, the literal names its target. */
  predicate FollowsBatch(ws: Workspace, renames: seq<Rename>, edits: seq<Edit>, file: Path, literal: Literal) {
    Reads(ws.cwd, HomeDir(ws, renames, file), Written(edits, file, literal)) == Goal(ws, renames, file, literal)
  }

  /** The file moves, or it parses and the graph has it sourcing something that does. */
  ghost predicate IsLookedAt(ws: Workspace, renames: seq<Rename>, file: Path) {
    var pairs, paths := Pairs(ws.cwd, renames), Normalized(ws.cwd, Known(ws));
    && file in ws.members
    && (|| IsMapped(pairs, paths, Normalize(ws.cwd, file))
        || (file in ws.clean
            && exists other <- ws.LiteralsOf(file) :: IsMapped(pairs, paths, ws.GraphTarget(file, other))))
  }

  /** The directory the code takes a file to end up in, and where it takes a literal's target to end up. */
  ghost function AimDir(ws: Workspace, renames: seq<Rename>, file: Path): Option<Path> {
    Parent(Aim(Pairs(ws.cwd, renames), Normalized(ws.cwd, Known(ws)), Normalize(ws.cwd, file)))
  }

  ghost function AimAt(ws: Workspace, renames: seq<Rename>, file: Path, literal: Literal): Path {
    Aim(Pairs(ws.cwd, renames), Normalized(ws.cwd, Known(ws)), ws.Target(file, literal))
  }

  /**
   * Exactly when a literal follows the batch, told from the workspace and the
   * batch alone. It is replaced if its file is looked at, it does not lead from
   * where the code takes the file to where the code takes the target, and the
   * respelling does not hold the quote; and then it follows if the respelling,
   * and otherwise if the literal as written, leads from where the batch takes the
   * file to where the batch takes the target. If the code takes the target to the
   * right place, a respelling does when it leads there from either directory.
   * For a file that the code takes to the right directory this comes to: if it
   * takes the target to the right place too, the literal as written survives, or
   * its file is looked at and the respelling is usable; if it does not, the
   * literal as written survives and nothing replaces it, or a respelling that
   * strays happens to hit.
   */
  ghost predicate FollowsIff(
      ws: Workspace, renames: seq<Rename>, edits: seq<Edit>, file: Path, literal: Literal)
  {
    var pairs, paths := Pairs(ws.cwd, renames), Normalized(ws.cwd, Known(ws));
    var dir, goal := HomeDir(ws, renames, file), Goal(ws, renames, file, literal);
    var aim := AimAt(ws, renames, file, literal);
    && dir.Some?
    && (var spelling := Respelled(AimDir(ws, renames, file), literal, aim);
        var replaced := && IsLookedAt(ws, renames, file) && literal.quote !in spelling
                        && Reads(ws.cwd, AimDir(ws, renames, file), literal.spelling) != aim;
        && Written(edits, file, literal) == (if replaced then spelling else literal.spelling)
        && (FollowsBatch(ws, renames, edits, file, literal) <==>
              Reads(ws.cwd, dir, if replaced then spelling else literal.spelling) == goal)
        && (replaced && Followed(pairs, paths, ws.Target(file, literal)) ==>
              AimDir(ws, renames, file).Some?
              && (FollowsBatch(ws, renames, edits, file, literal) <==>
                    LeadsFrom(ws.cwd, dir.value, AimDir(ws, renames, file).value, spelling, goal))))
    && (Followed(pairs, paths, Normalize(ws.cwd, file)) ==> AimDir(ws, renames, file) == dir)
    && (AimDir(ws, renames, file) == dir ==>
          var spelling := Respelled(dir, literal, aim);
          var survives := Reads(ws.cwd, dir, literal.spelling) == goal;
          FollowsBatch(ws, renames, edits, file, literal) <==>
            if Followed(pairs, paths, ws.Target(file, literal)) then
              survives || (IsLookedAt(ws, renames, file) && !Misread(ws.cwd, dir.value, literal.quote, spelling))
            else if IsLookedAt(ws, renames, file) && literal.quote !in spelling then
              && Reads(ws.cwd, dir, literal.spelling) != aim
              && Strays(ws.cwd, dir.value, spelling) && Normalize(ws.cwd, PathOf(spelling)) == goal
            else survives)
  }

  /**
   * A respelling made for the directory `elsewhere` leads to `aim` from `dir` too:
   * it is rooted, or the two directories meet where it stops climbing, or it
   * strays and happens to hit.
   */
  predicate LeadsFrom(cwd: Path, dir: Path, elsewhere: Path, spelling: string, aim: Path) {
    var path := PathOf(spelling);
    || IsAbsolute(path)
    || (if IsRelativeSpelling(spelling) then Walk(dir, Climb(path)) == Walk(elsewhere, Climb(path))
        else Normalize(cwd, path) == aim)
  }

  lemma RespelledLeadsFromIff(cwd: Path, dir: Path, elsewhere: Path, literal: Literal, aim: Path)
    requires IsAbsolute(cwd) && NormalAbsolute(dir) && NormalAbsolute(elsewhere) && NormalAbsolute(aim)
    ensures var spelling := Respelled(Some(elsewhere), literal, aim);
      Reads(cwd, Some(dir), spelling) == aim <==> LeadsFrom(cwd, dir, elsewhere, spelling, aim)
  {
    var spelling := Respelled(Some(elsewhere), literal, aim);
    var path := PathOf(spelling);
    RespelledReads(cwd, elsewhere, literal, aim);
    if IsRelativeSpelling(spelling) {
      RelativeIsRootless(spelling);
      RootlessHasNoRoot(spelling);
      JoinWalks(cwd, dir, path);
      JoinWalks(cwd, elsewhere, path);
      LeadsAlikeIff(dir, elsewhere, path);
    }
  }

  lemma RelativeIsRootless(spelling: string)
    requires IsRelativeSpelling(spelling)
    ensures !IsAbsolute(PathOf(spelling))
  {
    var path := PathOf(spelling);
    assert |path| > 0 ==> path[0] in path;
  }

  lemma LiteralFollowsTheBatchIff(
      ws: Workspace, renames: seq<Rename>, m: map<Path, Path>, edits: seq<Edit>, file: Path, literal: Literal)
    requires Ordinary(ws, renames) && file in ws.members && IsOrdinary(ws, file, literal)
    requires Expansion(Pairs(ws.cwd, renames), Normalized(ws.cwd, Known(ws)), m)
    requires IsRewriting(ws, m, Candidates(ws, m), edits)
    ensures FollowsIff(ws, renames, edits, file, literal)
  {
    PathsAreNormal(ws, renames, m, file, literal);
    MapFollowsBatchIff(ws, renames, m, file, literal);
    WrittenIs(ws, m, edits, file, literal);
    LiteralAimsAtTheMap(ws, m, file, literal);
    MapIsAim(ws, renames, m, file, literal);
    LookedAtIsCandidate(ws, renames, m, file);
    RespelledLeadsFromIff(
      ws.cwd, HomeDir(ws, renames, file).value, NewDir(ws, m, file).value, literal, NewTarget(ws, m, file, literal));
  }

  lemma MapIsAim(ws: Workspace, renames: seq<Rename>, m: map<Path, Path>, file: Path, literal: Literal)
    requires Expansion(Pairs(ws.cwd, renames), Normalized(ws.cwd, Known(ws)), m)
    ensures NewDir(ws, m, file) == AimDir(ws, renames, file)
    ensures NewTarget(ws, m, file, literal) == AimAt(ws, renames, file, literal)
  {
    var pairs, paths := Pairs(ws.cwd, renames), Normalized(ws.cwd, Known(ws));
    ExpansionIsAim(pairs, paths, m, Normalize(ws.cwd, file));
    ExpansionIsAim(pairs, paths, m, ws.Target(file, literal));
  }

  /** The code looks at exactly those files. */
  lemma LookedAtIsCandidate(ws: Workspace, renames: seq<Rename>, m: map<Path, Path>, file: Path)
    requires Expansion(Pairs(ws.cwd, renames), Normalized(ws.cwd, Known(ws)), m)
    ensures IsLookedAt(ws, renames, file) <==> IsCandidate(ws, m, file)
  {
    var pairs, paths := Pairs(ws.cwd, renames), Normalized(ws.cwd, Known(ws));
    ExpansionIsAim(pairs, paths, m, Normalize(ws.cwd, file));
    forall other ensures ws.GraphTarget(file, other) in m <==> IsMapped(pairs, paths, ws.GraphTarget(file, other)) {
      ExpansionIsAim(pairs, paths, m, ws.GraphTarget(file, other));
    }
    if other :| other in ws.LiteralsOf(file) && ws.GraphTarget(file, other) in m && file in ws.clean && file in ws.members {
      assert ws.Sources(file, ws.GraphTarget(file, other));
    }
  }

  // --- Normal paths stay normal ------------------------------------------------------

  lemma PairsAreNormal(ws: Workspace, renames: seq<Rename>)
    requires Ordinary(ws, renames)
    ensures Proper(Pairs(ws.cwd, renames))
    ensures forall r :: r in Pairs(ws.cwd, renames) ==> NormalAbsolute(r.from) && NormalAbsolute(r.to)
  {
    forall r | r in Pairs(ws.cwd, renames) ensures NormalAbsolute(r.from) && NormalAbsolute(r.to) {
      PairsNormalize(ws.cwd, renames, r);
    }
  }

  lemma {:induction false} PairsNormalize(cwd: Path, renames: seq<Rename>, r: Rename)
    requires IsAbsolute(cwd) && r in Pairs(cwd, renames)
    ensures IsNormal(r.from) && (r.from != [] ==> IsAbsolute(r.from))
    ensures IsNormal(r.to) && (r.to != [] ==> IsAbsolute(r.to))
  {
    var first := renames[0];
    if r == Rename(Normalize(cwd, first.from), Normalize(cwd, first.to)) {
      NormalizeIsIdempotent(cwd, first.from);
      NormalizeIsAbsolute(cwd, first.from);
      NormalizeIsIdempotent(cwd, first.to);
      NormalizeIsAbsolute(cwd, first.to);
    } else {
      PairsNormalize(cwd, renames[1..], r);
    }
  }

  /** Below a name there are only names, so a rebased path is as normal as the folder it moves to. */
  lemma RebasedIsNormal(r: Rename, path: Path)
    requires StrictlyUnder(path, r.from) && NormalAbsolute(path) && NormalAbsolute(r.to) && EndsInName(r.from)
    ensures NormalAbsolute(Rebased(r, path))
    ensures EndsInName(path) ==> EndsInName(Rebased(r, path))
  {
    var n, rest := |r.from|, path[|r.from|..];
    assert path[n - 1] == path[..n][n - 1];
    assert forall i :: 0 <= i < |rest| ==> rest[i] == path[n + i];
    assert AllNames(rest);
    assert Rebased(r, path) == r.to + rest;
  }

  lemma MovedIsNormal(r: Rename, path: Path)
    requires AtOrUnder(path, r.from) && NormalAbsolute(path) && NormalAbsolute(r.to)
    requires EndsInName(r.from) && EndsInName(r.to)
    ensures NormalAbsolute(Moved(r, path)) && (EndsInName(path) ==> EndsInName(Moved(r, path)))
  {
    if path != r.from {
      RebasedIsNormal(r, path);
    }
  }

  lemma DestinationIsNormal(ws: Workspace, renames: seq<Rename>, path: Path)
    requires Ordinary(ws, renames) && NormalAbsolute(path)
    ensures NormalAbsolute(Destination(Pairs(ws.cwd, renames), path))
    ensures EndsInName(path) ==> EndsInName(Destination(Pairs(ws.cwd, renames), path))
  {
    var pairs := Pairs(ws.cwd, renames);
    PairsAreNormal(ws, renames);
    if i: nat :| DeepestBelow(pairs, path, |pairs|) == Some(i) {
      assert pairs[i] in pairs;
      MovedIsNormal(pairs[i], path);
    }
  }

  lemma ImageIsNormal(ws: Workspace, renames: seq<Rename>, paths: seq<Path>, m: map<Path, Path>, path: Path)
    requires Ordinary(ws, renames) && NormalAbsolute(path) && Expansion(Pairs(ws.cwd, renames), paths, m)
    ensures NormalAbsolute(Image(m, path)) && (EndsInName(path) ==> EndsInName(Image(m, path)))
  {
    var pairs := Pairs(ws.cwd, renames);
    PairsAreNormal(ws, renames);
    if path in m {
      if i: nat :| Survives(pairs, i, paths) && pairs[i].from == path {
        assert pairs[i] in pairs;
      } else {
        var c: nat :| Claims(pairs, c, path);
        assert pairs[c] in pairs;
        RebasedIsNormal(pairs[c], path);
      }
    }
  }

  lemma ParentIsNormal(path: Path)
    requires NormalAbsolute(path) && EndsInName(path)
    ensures Parent(path).Some? && NormalAbsolute(Parent(path).value)
  {
  }

  lemma FileIsNormal(cwd: Path, file: Path)
    requires IsAbsolute(cwd) && EndsInName(file)
    ensures NormalAbsolute(Normalize(cwd, file)) && EndsInName(Normalize(cwd, file))
  {
    var dir, name := file[..|file| - 1], file[|file| - 1];
    NormalizeIsIdempotent(cwd, file);
    NormalizeIsAbsolute(cwd, file);
    assert file == dir + [name];
    var before := if IsAbsolute(file) then dir else cwd + dir;
    assert Absolute(cwd, file) == before + [name];
    WalkConcat([], before, [name]);
    assert Walk(Walk([], before), [name]) == Walk([], before) + [name];
  }

  lemma TargetIsNormal(ws: Workspace, file: Path, literal: Literal)
    requires IsAbsolute(ws.cwd) && ws.Target(file, literal) != []
    ensures NormalAbsolute(ws.Target(file, literal))
  {
    TargetIsNormalized(ws, file, literal);
    NormalizedIffFixed(ws.cwd, ws.Target(file, literal));
  }

  lemma PathsAreNormal(ws: Workspace, renames: seq<Rename>, m: map<Path, Path>, file: Path, literal: Literal)
    requires Ordinary(ws, renames) && IsOrdinary(ws, file, literal)
    requires Expansion(Pairs(ws.cwd, renames), Normalized(ws.cwd, Known(ws)), m)
    ensures HomeDir(ws, renames, file).Some? && NormalAbsolute(HomeDir(ws, renames, file).value)
    ensures NewDir(ws, m, file).Some? && NormalAbsolute(NewDir(ws, m, file).value)
    ensures NormalAbsolute(Goal(ws, renames, file, literal)) && NormalAbsolute(NewTarget(ws, m, file, literal))
  {
    var paths := Normalized(ws.cwd, Known(ws));
    var path, target := Normalize(ws.cwd, file), ws.Target(file, literal);
    FileIsNormal(ws.cwd, file);
    TargetIsNormal(ws, file, literal);
    DestinationIsNormal(ws, renames, path);
    DestinationIsNormal(ws, renames, target);
    ImageIsNormal(ws, renames, paths, m, path);
    ImageIsNormal(ws, renames, paths, m, target);
    ParentIsNormal(Home(ws, renames, file));
    ParentIsNormal(Image(m, path));
  }

  lemma MapFollowsBatchIff(ws: Workspace, renames: seq<Rename>, m: map<Path, Path>, file: Path, literal: Literal)
    requires Ordinary(ws, renames) && IsOrdinary(ws, file, literal)
    requires Expansion(Pairs(ws.cwd, renames), Normalized(ws.cwd, Known(ws)), m)
    ensures var pairs, paths := Pairs(ws.cwd, renames), Normalized(ws.cwd, Known(ws));
      && (Followed(pairs, paths, Normalize(ws.cwd, file)) ==> NewDir(ws, m, file) == HomeDir(ws, renames, file))
      && (Followed(pairs, paths, ws.Target(file, literal))
          <==> NewTarget(ws, m, file, literal) == Goal(ws, renames, file, literal))
  {
    var pairs, paths := Pairs(ws.cwd, renames), Normalized(ws.cwd, Known(ws));
    PairsAreNormal(ws, renames);
    FileIsNormal(ws.cwd, file);
    TargetIsNormal(ws, file, literal);
    ImageFollowsBatchIff(pairs, paths, m, Normalize(ws.cwd, file));
    ImageFollowsBatchIff(pairs, paths, m, ws.Target(file, literal));
  }

  // --- From the list of edits back to one literal -----------------------------------------

  predicate IsEditOf(ws: Workspace, m: map<Path, Path>, file: Path, literal: Literal, e: Edit) {
    EditFor(ws, m, file, literal) == Some(e)
  }

  lemma EditsInLast(ws: Workspace, m: map<Path, Path>, file: Path, literals: seq<Literal>, e: Edit)
    requires |literals| > 0
    ensures e in EditsIn(ws, m, file, literals)
       <==> e in EditsIn(ws, m, file, literals[..|literals| - 1])
            || IsEditOf(ws, m, file, literals[|literals| - 1], e)
  {
  }

  /** Every edit of a file is that of one of its literals, and the other way round. */
  lemma {:induction false} EditHasLiteral(
      ws: Workspace, m: map<Path, Path>, file: Path, literals: seq<Literal>, e: Edit) returns (l: Literal)
    requires e in EditsIn(ws, m, file, literals)
    ensures l in literals && IsEditOf(ws, m, file, l, e)
    decreases |literals|
  {
    EditsInLast(ws, m, file, literals, e);
    l := literals[|literals| - 1];
    if !IsEditOf(ws, m, file, l, e) {
      l := EditHasLiteral(ws, m, file, literals[..|literals| - 1], e);
    }
  }

  lemma {:induction false} LiteralHasEdit(
      ws: Workspace, m: map<Path, Path>, file: Path, literals: seq<Literal>, k: nat, e: Edit)
    requires k < |literals| && IsEditOf(ws, m, file, literals[k], e)
    ensures e in EditsIn(ws, m, file, literals)
    decreases |literals|
  {
    EditsInLast(ws, m, file, literals, e);
    if k < |literals| - 1 {
      LiteralHasEdit(ws, m, file, literals[..|literals| - 1], k, e);
    }
  }

  lemma {:induction false} EditsForAre(ws: Workspace, m: map<Path, Path>, files: seq<Path>, e: Edit)
    ensures e in EditsFor(ws, m, files)
       <==> exists file :: file in files && e in EditsIn(ws, m, file, ws.LiteralsOf(file))
    decreases |files|
  {
    if |files| > 0 {
      var init, last := files[..|files| - 1], files[|files| - 1];
      EditsForAre(ws, m, init, e);
      EditsForLast(ws, m, files, e);
      InLast(files);
    }
  }

  lemma EditsForLast(ws: Workspace, m: map<Path, Path>, files: seq<Path>, e: Edit)
    requires |files| > 0
    ensures var init, last := files[..|files| - 1], files[|files| - 1];
      e in EditsFor(ws, m, files) <==> e in EditsFor(ws, m, init) || e in EditsIn(ws, m, last, ws.LiteralsOf(last))
  {
  }

  lemma InLast(files: seq<Path>)
    requires |files| > 0
    ensures forall file :: file in files <==> file in files[..|files| - 1] || file == files[|files| - 1]
  {
    assert files == files[..|files| - 1] + [files[|files| - 1]];
  }

  lemma EditReplacesLiteral(ws: Workspace, m: map<Path, Path>, edits: seq<Edit>, e: Edit)
    requires IsRewriting(ws, m, Candidates(ws, m), edits) && e in edits
    ensures ReplacesLiteral(ws, e)
  {
    var files: seq<Path> :| Enumerates(files, Candidates(ws, m)) && edits == EditsFor(ws, m, files);
    EditsForAre(ws, m, files, e);
    var file :| file in files && e in EditsIn(ws, m, file, ws.LiteralsOf(file));
    var literal := EditHasLiteral(ws, m, file, ws.LiteralsOf(file), e);
    EditIsQuoted(ws, m, file, literal, e);
  }

  lemma EditIsQuoted(ws: Workspace, m: map<Path, Path>, file: Path, literal: Literal, e: Edit)
    requires IsEditOf(ws, m, file, literal, e)
    ensures e.sourcer == file && IsQuotedFor(literal, e)
  {
    var spelling := Respelled(NewDir(ws, m, file), literal, NewTarget(ws, m, file, literal));
    assert e.text == [literal.quote] + spelling + [literal.quote];
    assert e.text[1..|e.text| - 1] == spelling;
  }

  /** A candidate's literal ends up as its own edit leaves it; the literals of other files stay. */
  lemma WrittenIs(ws: Workspace, m: map<Path, Path>, edits: seq<Edit>, file: Path, literal: Literal)
    requires IsOrdinary(ws, file, literal) && IsRewriting(ws, m, Candidates(ws, m), edits)
    ensures Written(edits, file, literal)
         == if IsCandidate(ws, m, file) then SpellingAfter(ws, m, file, literal) else literal.spelling
  {
    var files: seq<Path> :| Enumerates(files, Candidates(ws, m)) && edits == EditsFor(ws, m, files);
    var own := EditFor(ws, m, file, literal);
    match EditAt(edits, file, literal.range) {
      case Some(e) =>
        EditsForAre(ws, m, files, e);
        var sourcer :| sourcer in files && e in EditsIn(ws, m, sourcer, ws.LiteralsOf(sourcer));
        var l := EditHasLiteral(ws, m, sourcer, ws.LiteralsOf(sourcer), e);
        assert sourcer == file && l == literal;
      case None =>
        if file in files && own.Some? {
          var k :| 0 <= k < |ws.LiteralsOf(file)| && ws.LiteralsOf(file)[k] == literal;
          LiteralHasEdit(ws, m, file, ws.LiteralsOf(file), k, own.value);
          EditsForAre(ws, m, files, own.value);
        }
    }
  }

  // --- Which files are looked at -------------------------------------------------

  /** Resolving against the directory of the raw or of the normalized file path is the same. */
  lemma ParentCommutes(cwd: Path, file: Path, path: Path)
    requires IsAbsolute(cwd) && |file| > 0 && file[|file| - 1].Normal?
    requires |file| > 1 || |path| > 0
    ensures Parent(Normalize(cwd, file)).Some?
    ensures Normalize(cwd, JoinPath(Parent(file).value, path))
         == Normalize(cwd, JoinPath(Parent(Normalize(cwd, file)).value, path))
  {
    var dir, name := file[..|file| - 1], file[|file| - 1];
    var base := if |dir| == 0 then cwd else dir;
    assert file == dir + [name];
    assert Absolute(cwd, file) == Absolute(cwd, base) + [name] by {
      if |dir| > 0 {
        assert cwd + (dir + [name]) == (cwd + dir) + [name];
      }
    }
    WalkConcat([], Absolute(cwd, base), [name]);
    assert Walk(Normalize(cwd, base), [name]) == Normalize(cwd, base) + [name];
    assert Parent(Normalize(cwd, file)) == Some(Normalize(cwd, base));
    NormalizeAbsorbsJoin(cwd, base, path);
    if |dir| == 0 {
      assert [] + path == path;
    }
  }

  /**
   * The graph sees what a literal reads: it is relative or rooted, or it only
   * looks rooted and the file's directory and the working directory meet where
   * the spelling stops climbing.
   */
  predicate GraphSees(ws: Workspace, file: Path, literal: Literal) {
    var path, dir := PathOf(literal.spelling), Parent(Normalize(ws.cwd, file));
    || IsRelativeSpelling(literal.spelling) || IsAbsolute(path)
    || (dir.Some? && Walk(dir.value, Climb(path)) == Walk(Normalize(ws.cwd, ws.cwd), Climb(path)))
  }

  /** The graph records a literal under the path it reads exactly when the graph sees it. */
  lemma GraphTargetIsTargetIff(ws: Workspace, file: Path, literal: Literal)
    requires IsAbsolute(ws.cwd) && EndsInName(file) && ws.Target(file, literal) != []
    ensures ws.GraphTarget(file, literal) == ws.Target(file, literal) <==> GraphSees(ws, file, literal)
  {
    var path := PathOf(literal.spelling);
    if !IsRelativeSpelling(literal.spelling) && !IsAbsolute(path) {
      assert path != [];
      RootlessHasNoRoot(literal.spelling);
      FileIsNormal(ws.cwd, file);
      ParentCommutes(ws.cwd, file, path);
      ParentIsNormal(Normalize(ws.cwd, file));
      var dir := Parent(Normalize(ws.cwd, file)).value;
      JoinWalks(ws.cwd, dir, path);
      WalkConcat([], ws.cwd, path);
      LeadsAlikeIff(dir, Normalize(ws.cwd, ws.cwd), path);
    }
  }

  lemma RootlessHasNoRoot(spelling: string)
    requires !IsAbsolute(PathOf(spelling))
    ensures forall c <- PathOf(spelling) :: !c.Root?
  {
  }

  lemma JoinWalks(cwd: Path, dir: Path, path: Path)
    requires NormalAbsolute(dir) && !IsAbsolute(path)
    ensures Normalize(cwd, JoinPath(dir, path)) == Walk(dir, path)
  {
    WalkConcat([], dir, path);
    WalkFixesNormal(dir);
  }

  /** Left as written, the literal would not name its target once the batch is carried out. */
  predicate Breaks(ws: Workspace, renames: seq<Rename>, file: Path, literal: Literal) {
    && literal in ws.LiteralsOf(file)
    && Reads(ws.cwd, HomeDir(ws, renames, file), literal.spelling) != Goal(ws, renames, file, literal)
  }

  /**
   * A member with a literal that breaks is looked at exactly when the member
   * itself is mapped, or parses cleanly and the project graph sees what the
   * literal reads, or records at least another mapped target.
   */
  lemma BreakingMemberIsFoundIff(
      ws: Workspace, renames: seq<Rename>, m: map<Path, Path>, file: Path, literal: Literal)
    requires Ordinary(ws, renames) && file in ws.members && IsOrdinary(ws, file, literal)
    requires Expansion(Pairs(ws.cwd, renames), Normalized(ws.cwd, Known(ws)), m)
    requires var pairs, paths := Pairs(ws.cwd, renames), Normalized(ws.cwd, Known(ws));
      Followed(pairs, paths, Normalize(ws.cwd, file)) && Followed(pairs, paths, ws.Target(file, literal))
    requires Breaks(ws, renames, file, literal)
    ensures IsCandidate(ws, m, file) <==>
      || Normalize(ws.cwd, file) in m
      || (file in ws.clean
          && (GraphSees(ws, file, literal)
              || exists other :: other in ws.LiteralsOf(file) && ws.GraphTarget(file, other) in m))
  {
    GraphTargetIsTargetIff(ws, file, literal);
    MapFollowsBatchIff(ws, renames, m, file, literal);
    if Normalize(ws.cwd, file) !in m {
      UnmovedReadsAsBefore(ws, file, literal);
      assert ws.Target(file, literal) in m;
      if file in ws.clean && ws.GraphTarget(file, literal) == ws.Target(file, literal) {
        assert ws.Sources(file, ws.Target(file, literal));
      }
      if other :| file in ws.clean && other in ws.LiteralsOf(file) && ws.GraphTarget(file, other) in m {
        assert ws.Sources(file, ws.GraphTarget(file, other));
      }
    }
  }

  /** A literal reads the same from the raw and from the normalized directory of its file. */
  lemma UnmovedReadsAsBefore(ws: Workspace, file: Path, literal: Literal)
    requires IsAbsolute(ws.cwd) && EndsInName(file) && ws.Target(file, literal) != []
    ensures Reads(ws.cwd, Parent(Normalize(ws.cwd, file)), literal.spelling) == ws.Target(file, literal)
  {
    FileIsNormal(ws.cwd, file);
    if |file| > 1 || |PathOf(literal.spelling)| > 0 {
      ParentCommutes(ws.cwd, file, PathOf(literal.spelling));
    } else {
      assert JoinPath(Parent(file).value, PathOf(literal.spelling)) == [];
    }
  }


  /**
   * For a member that parses cleanly and a literal the graph sees, the target
   * is known, so only a pair that names the target and was taken for a folder can
   * lead the map astray.
   */
  lemma CleanTargetIsFollowedIff(
      ws: Workspace, renames: seq<Rename>, m: map<Path, Path>, file: Path, literal: Literal)
    requires Ordinary(ws, renames) && file in ws.members && file in ws.clean && IsOrdinary(ws, file, literal)
    requires GraphSees(ws, file, literal)
    requires Expansion(Pairs(ws.cwd, renames), Normalized(ws.cwd, Known(ws)), m)
    ensures var pairs, paths := Pairs(ws.cwd, renames), Normalized(ws.cwd, Known(ws));
            var target := ws.Target(file, literal);
      && target in paths
      && (MovesTo(pairs, target, NewTarget(ws, m, file, literal)) <==>
            forall i: nat :: Names(pairs, i, target) && Expanded(pairs, i, paths) ==>
              ClaimedTo(pairs, target, pairs[i].to))
  {
    var pairs, paths := Pairs(ws.cwd, renames), Normalized(ws.cwd, Known(ws));
    var target := ws.Target(file, literal);
    GraphTargetIsTargetIff(ws, file, literal);
    assert target in TargetsOf(ws, ws.members);
    KnownIsNormalized(ws, target);
    TargetIsNormalized(ws, file, literal);
    TargetIsNormal(ws, file, literal);
    PairsAreNormal(ws, renames);
    ExpansionMovesKnownFiles(pairs, paths, m, target);
  }

  /**
   * So the literals of cleanly parsed members follow the batch exactly when they
   * survive as written or their respelling is usable, wherever the map follows
   * the batch on the file and the target.
   */
  lemma CleanLiteralFollowsIff(
      ws: Workspace, renames: seq<Rename>, m: map<Path, Path>, edits: seq<Edit>, file: Path, literal: Literal)
    requires Ordinary(ws, renames) && file in ws.members && file in ws.clean && IsOrdinary(ws, file, literal)
    requires GraphSees(ws, file, literal)
    requires Expansion(Pairs(ws.cwd, renames), Normalized(ws.cwd, Known(ws)), m)
    requires IsRewriting(ws, m, Candidates(ws, m), edits)
    requires var pairs, paths := Pairs(ws.cwd, renames), Normalized(ws.cwd, Known(ws));
      Followed(pairs, paths, Normalize(ws.cwd, file)) && Followed(pairs, paths, ws.Target(file, literal))
    ensures HomeDir(ws, renames, file).Some?
    ensures FollowsBatch(ws, renames, edits, file, literal) <==>
      || !Breaks(ws, renames, file, literal)
      || !Misread(ws.cwd, HomeDir(ws, renames, file).value, literal.quote,
                  Respelled(HomeDir(ws, renames, file), literal, Goal(ws, renames, file, literal)))
  {
    LiteralFollowsTheBatchIff(ws, renames, m, edits, file, literal);
    MapFollowsBatchIff(ws, renames, m, file, literal);
    MapIsAim(ws, renames, m, file, literal);
    LookedAtIsCandidate(ws, renames, m, file);
    if Breaks(ws, renames, file, literal) {
      BreakingMemberIsFoundIff(ws, renames, m, file, literal);
    }
  }

  lemma KnownIsNormalized(ws: Workspace, path: Path)
    requires path in Known(ws)
    ensures Normalize(ws.cwd, path) in Normalized(ws.cwd, Known(ws))
  {
    var i :| 0 <= i < |Known(ws)| && Known(ws)[i] == path;
    assert Normalized(ws.cwd, Known(ws))[i] == Normalize(ws.cwd, path);
  }

  lemma TargetIsNormalized(ws: Workspace, file: Path, literal: Literal)
    requires IsAbsolute(ws.cwd)
    ensures Normalize(ws.cwd, ws.Target(file, literal)) == ws.Target(file, literal)
  {
    if IsRelativeSpelling(literal.spelling) && Parent(file).Some? {
      NormalizeIsIdempotent(ws.cwd, JoinPath(Parent(file).value, PathOf(literal.spelling)));
    } else {
      NormalizeIsIdempotent(ws.cwd, PathOf(literal.spelling));
    }
  }
}
