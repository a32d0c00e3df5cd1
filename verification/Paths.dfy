/**
 * Lexical paths: `normalize_path` of `src/incremental.rs` and `relative_path`
 * of `src/project/source.rs`, over the components of a Unix path.
 */
module Paths {
  import opened Common

  /** A file name: never empty, never a dot name, never holding the separator. */
  type Name = s: string | s != "" && s != "." && s != ".." && '/' !in s witness "a"

  datatype Component = Root | CurDir | ParentDir | Normal(name: Name)

  type Path = seq<Component>

  /** `PathBuf::push` of one component: a root replaces everything before it. */
  function Push(path: Path, c: Component): Path {
    if c.Root? then [Root] else path + [c]
  }

  function PushAll(path: Path, cs: Path): Path
    decreases |cs|
  {
    if |cs| == 0 then path else PushAll(Push(path, cs[0]), cs[1..])
  }

  predicate IsAbsolute(path: Path) {
    |path| > 0 && path[0].Root?
  }

  /** `Path::join`: an absolute right-hand side stands alone. */
  function JoinPath(dir: Path, path: Path): Path {
    if IsAbsolute(path) then path else dir + path
  }

  /** `Path::parent`: none for the empty path and for a bare root. */
  function Parent(path: Path): Option<Path> {
    if |path| == 0 || path[|path| - 1].Root? then None else Some(path[..|path| - 1])
  }

  lemma ParentIff(path: Path, parent: Path)
    ensures Parent(path) == Some(parent) <==> exists last :: path == parent + [last] && last != Root
  {
    if Parent(path) == Some(parent) {
      assert path == parent + [path[|path| - 1]];
    } else if last :| path == parent + [last] && last != Root {
      assert path[..|path| - 1] == parent;
    }
  }

  /** `std::path::absolute` under working directory `cwd`; the empty path has no absolute form. */
  function Absolute(cwd: Path, path: Path): Path {
    if |path| == 0 || IsAbsolute(path) then path else cwd + path
  }

  /** One step of normalization. */
  function Step(out: Path, c: Component): Path {
    match c
    case CurDir => out
    case ParentDir =>
      if |out| > 0 && out[|out| - 1].Normal? then out[..|out| - 1] else out + [ParentDir]
    case _ => Push(out, c)
  }

  /** Resolve the components of `path` one by one onto `out`. */
  function Walk(out: Path, path: Path): Path
    decreases |path|
  {
    if |path| == 0 then out else Walk(Step(out, path[0]), path[1..])
  }

  function Normalize(cwd: Path, path: Path): Path {
    Walk([], Absolute(cwd, path))
  }

  method NormalizePath(cwd: Path, path: Path) returns (out: Path)
    ensures out == Normalize(cwd, path)
  {
    var absolute := Absolute(cwd, path);
    out := [];
    for i := 0 to |absolute|
      invariant Walk([], absolute) == Walk(out, absolute[i..])
    {
      var component := absolute[i];
      assert absolute[i..][0] == component && absolute[i..][1..] == absolute[i + 1..];
      match component {
        case CurDir =>
        case ParentDir =>
          if |out| > 0 && out[|out| - 1].Normal? {
            out := out[..|out| - 1];
          } else {
            out := Push(out, component);
          }
        case _ =>
          out := Push(out, component);
      }
    }
  }

  // --- What normal means -----------------------------------------------------

  /** No `.`, a root only in front, and every `..` before every name. */
  ghost predicate IsNormal(path: Path) {
    && (forall i :: 0 <= i < |path| ==> !path[i].CurDir?)
    && (forall i :: 0 < i < |path| ==> !path[i].Root?)
    && (forall i, j :: 0 <= i < j < |path| && path[j].ParentDir? ==> !path[i].Normal?)
  }

  lemma {:induction false} WalkIsNormal(out: Path, path: Path)
    requires IsNormal(out)
    ensures IsNormal(Walk(out, path))
    decreases |path|
  {
    if |path| > 0 {
      WalkIsNormal(Step(out, path[0]), path[1..]);
    }
  }

  lemma {:induction false} WalkConcat(out: Path, a: Path, b: Path)
    ensures Walk(out, a + b) == Walk(Walk(out, a), b)
    decreases |a|
  {
    if |a| == 0 {
      assert a + b == b;
    } else {
      WalkConcat(Step(out, a[0]), a[1..], b);
      assert (a + b)[1..] == a[1..] + b;
    }
  }

  /** Walking the rest of a normal path onto its beginning only appends. */
  lemma {:induction false} WalkNormal(out: Path, rest: Path)
    requires IsNormal(out + rest)
    ensures Walk(out, rest) == out + rest
    decreases |rest|
  {
    if |rest| == 0 {
      assert out + rest == out;
    } else {
      var c := rest[0];
      assert (out + rest)[|out|] == c;
      assert |out| > 0 ==> (out + rest)[|out| - 1] == out[|out| - 1];
      assert c.Root? ==> |out| == 0 && [Root] == out + [c];
      assert Step(out, c) == out + [c];
      assert out + [c] + rest[1..] == out + rest;
      WalkNormal(out + [c], rest[1..]);
    }
  }

  lemma WalkFixesNormal(path: Path)
    requires IsNormal(path)
    ensures Walk([], path) == path
  {
    assert [] + path == path;
    WalkNormal([], path);
  }

  /** Absolute input stays absolute. */
  lemma {:induction false} WalkKeepsRoot(out: Path, path: Path)
    requires IsAbsolute(out)
    ensures IsAbsolute(Walk(out, path))
    decreases |path|
  {
    if |path| > 0 {
      WalkKeepsRoot(Step(out, path[0]), path[1..]);
    }
  }

  /** Normalizing an absolute or relative path gives an absolute one; only the empty path stays empty. */
  lemma NormalizeIsAbsolute(cwd: Path, path: Path)
    requires IsAbsolute(cwd)
    ensures if |path| == 0 then Normalize(cwd, path) == [] else IsAbsolute(Normalize(cwd, path))
  {
    var absolute := Absolute(cwd, path);
    if |path| > 0 {
      assert Step([], absolute[0]) == [Root];
      WalkKeepsRoot([Root], absolute[1..]);
    }
  }

  /** The result has the normal shape, and normalizing it again changes nothing. */
  lemma NormalizeIsIdempotent(cwd: Path, path: Path)
    requires IsAbsolute(cwd)
    ensures IsNormal(Normalize(cwd, path))
    ensures Normalize(cwd, Normalize(cwd, path)) == Normalize(cwd, path)
  {
    WalkIsNormal([], Absolute(cwd, path));
    WalkFixesNormal(Normalize(cwd, path));
    NormalizeIsAbsolute(cwd, path);
  }

  /** A normalized path names itself, and only normalized paths do. */
  lemma NormalizedIffFixed(cwd: Path, path: Path)
    requires IsAbsolute(cwd)
    ensures Normalize(cwd, path) == path <==> IsNormal(path) && (|path| == 0 || IsAbsolute(path))
  {
    NormalizeIsIdempotent(cwd, path);
    NormalizeIsAbsolute(cwd, path);
    if IsNormal(path) {
      WalkFixesNormal(path);
    }
  }

  /** Normalizing a directory before joining onto it never changes where the join leads. */
  lemma NormalizeAbsorbsJoin(cwd: Path, dir: Path, path: Path)
    requires IsAbsolute(cwd)
    ensures Normalize(cwd, JoinPath(Normalize(cwd, dir), path)) == Normalize(cwd, JoinPath(dir, path))
  {
    NormalizeIsAbsolute(cwd, dir);
    NormalizeIsIdempotent(cwd, dir);
    if |dir| > 0 && !IsAbsolute(path) {
      var base, absolute := Normalize(cwd, dir), Absolute(cwd, dir);
      assert Absolute(cwd, base) == base && Absolute(cwd, base + path) == base + path;
      assert Absolute(cwd, dir + path) == absolute + path by {
        assert cwd + (dir + path) == (cwd + dir) + path;
      }
      calc {
        Walk([], base + path);
        { WalkConcat([], base, path); }
        Walk(Walk([], base), path);
        Walk(Walk([], absolute), path);
        { WalkConcat([], absolute, path); }
        Walk([], absolute + path);
      }
    }
  }

  // --- Relative spellings ----------------------------------------------------

  function CommonPrefix(a: Path, b: Path): (n: nat)
    ensures n <= |a| && n <= |b| && a[..n] == b[..n]
    ensures n < |a| && n < |b| ==> a[n] != b[n]
  {
    if |a| == 0 || |b| == 0 || a[0] != b[0] then 0 else 1 + CommonPrefix(a[1..], b[1..])
  }

  /** One `..` for each name to leave; no answer when a root or a `..` would have to be left. */
  function StepsUp(rest: Path): Option<Path> {
    if |rest| == 0 then Some([])
    else
      match rest[0]
      case Normal(_) => (match StepsUp(rest[1..]) case Some(ups) => Some([ParentDir] + ups) case None => None)
      case CurDir => StepsUp(rest[1..])
      case _ => None
  }

  /** The spelling of `target` seen from the directory `base`. */
  function Relative(base: Path, target: Path): Option<Path> {
    var n := CommonPrefix(base, target);
    match StepsUp(base[n..])
    case Some(ups) => Some(PushAll(ups, target[n..]))
    case None => None
  }

  method RelativePath(base: Path, target: Path) returns (result: Option<Path>)
    ensures result == Relative(base, target)
  {
    var n := SharedLength(base, target);
    var ups := LeaveNames(base[n..]);
    match ups {
      case None => return None;
      case Some(path) =>
        var full := Append(path, target[n..]);
        return Some(full);
    }
  }

  method SharedLength(base: Path, target: Path) returns (n: nat)
    ensures n == CommonPrefix(base, target)
  {
    n := 0;
    while n < |base| && n < |target| && base[n] == target[n]
      invariant n <= |base| && n <= |target|
      invariant CommonPrefix(base, target) == n + CommonPrefix(base[n..], target[n..])
    {
      assert base[n..][1..] == base[n + 1..] && target[n..][1..] == target[n + 1..];
      n := n + 1;
    }
  }

  /** One `..` for each name left behind. */
  method LeaveNames(left: Path) returns (path: Option<Path>)
    ensures path == StepsUp(left)
  {
    var ups: Path := [];
    assert left[0..] == left;
    AfterNothing(StepsUp(left));
    for i := 0 to |left|
      invariant StepsUp(left) == After(ups, StepsUp(left[i..]))
    {
      assert left[i..][0] == left[i] && left[i..][1..] == left[i + 1..];
      AfterStep(ups, StepsUp(left[i + 1..]));
      match left[i] {
        case Normal(_) => ups := Push(ups, ParentDir);
        case CurDir =>
        case _ => return None;
      }
    }
    assert ups + [] == ups;
    return Some(ups);
  }

  /** The unshared components pushed one after the other. */
  method Append(start: Path, rest: Path) returns (path: Path)
    ensures path == PushAll(start, rest)
  {
    path := start;
    assert rest[0..] == rest;
    for i := 0 to |rest|
      invariant PushAll(start, rest) == PushAll(path, rest[i..])
    {
      assert rest[i..][0] == rest[i] && rest[i..][1..] == rest[i + 1..];
      path := Push(path, rest[i]);
    }
  }

  ghost function After(path: Path, ups: Option<Path>): Option<Path> {
    match ups
    case Some(value) => Some(path + value)
    case None => None
  }

  lemma AfterNothing(ups: Option<Path>)
    ensures After([], ups) == ups
  {
    if ups.Some? {
      assert [] + ups.value == ups.value;
    }
  }

  lemma AfterStep(path: Path, ups: Option<Path>)
    ensures ups.Some? ==> After(path, Some([ParentDir] + ups.value)) == After(path + [ParentDir], ups)
  {
    if ups.Some? {
      assert path + ([ParentDir] + ups.value) == path + [ParentDir] + ups.value;
    }
  }

  /** A relative answer exists exactly when only names have to be left behind. */
  lemma {:induction false} StepsUpIff(rest: Path)
    ensures StepsUp(rest).Some? <==> forall i :: 0 <= i < |rest| ==> rest[i].Normal? || rest[i].CurDir?
    ensures StepsUp(rest).Some? ==> AllUps(StepsUp(rest).value)
  {
    if |rest| > 0 {
      StepsUpIff(rest[1..]);
      assert forall i :: 0 < i < |rest| ==> rest[i] == rest[1..][i - 1];
      assert forall i :: 0 <= i < |rest[1..]| ==> rest[1..][i] == rest[i + 1];
    }
  }

  predicate AllUps(path: Path) {
    forall i :: 0 <= i < |path| ==> path[i].ParentDir?
  }

  /** Following the steps up undoes the names. */
  lemma {:induction false} StepsUpUndo(out: Path, rest: Path)
    requires StepsUp(rest).Some?
    requires forall i :: 0 <= i < |rest| ==> !rest[i].CurDir?
    ensures Walk(out + rest, StepsUp(rest).value) == out
    decreases |rest|
  {
    if |rest| == 0 {
      assert out + rest == out;
    } else {
      var ups := StepsUp(rest[1..]).value;
      StepsUpIff(rest[1..]);
      StepsUpUndo(out + [rest[0]], rest[1..]);
      assert out + [rest[0]] + rest[1..] == out + rest;
      UpsCommute(ups);
      WalkConcat(out + rest, ups, [ParentDir]);
    }
  }

  lemma UpsCommute(ups: Path)
    requires AllUps(ups)
    ensures [ParentDir] + ups == ups + [ParentDir]
  {
    var a, b := [ParentDir] + ups, ups + [ParentDir];
    assert forall i :: 0 <= i < |a| ==> a[i] == ParentDir;
    assert forall i :: 0 <= i < |b| ==> b[i] == ParentDir;
  }

  lemma {:induction false} PushAllWalks(path: Path, rest: Path)
    requires forall i :: 0 < i < |rest| ==> !rest[i].Root?
    ensures if IsAbsolute(rest) then PushAll(path, rest) == rest else PushAll(path, rest) == path + rest
    decreases |rest|
  {
    if |rest| > 0 {
      PushAllWalks(Push(path, rest[0]), rest[1..]);
      if rest[0].Root? {
        assert [Root] + rest[1..] == rest;
      } else {
        assert path + [rest[0]] + rest[1..] == path + rest;
      }
    } else {
      assert path + rest == path;
    }
  }

  predicate AllNames(path: Path) {
    forall i :: 0 <= i < |path| ==> path[i].Normal?
  }

  /** There is a relative spelling exactly when `base` leaves no root and no `..` behind. */
  lemma RelativeExistsIff(base: Path, target: Path)
    requires IsNormal(base)
    ensures Relative(base, target).Some? <==> AllNames(base[CommonPrefix(base, target)..])
  {
    StepsUpIff(base[CommonPrefix(base, target)..]);
    NoCurDir(base, CommonPrefix(base, target));
  }

  /** The relative spelling leads from `base` back to `target`, through steps up and names of `target`. */
  lemma RelativeLeadsToTarget(cwd: Path, base: Path, target: Path)
    requires IsAbsolute(cwd) && IsAbsolute(base) && IsAbsolute(target)
    requires IsNormal(base) && IsNormal(target)
    requires Relative(base, target).Some?
    ensures Normalize(cwd, JoinPath(base, Relative(base, target).value)) == target
    ensures var rel := Relative(base, target).value;
      forall i :: 0 <= i < |rel| ==> rel[i].ParentDir? || rel[i] in target[1..]
    ensures NoRoot(Relative(base, target).value)
  {
    var n := CommonPrefix(base, target);
    var left, rest := base[n..], target[n..];
    assert base[0] == target[0];
    StepsUpIff(left);
    RelativeShape(StepsUp(left).value, rest, target);
    PushAllWalks(StepsUp(left).value, rest);
    LeadsBack(cwd, base, n, target);
  }

  predicate NoRoot(path: Path) {
    forall i :: 0 <= i < |path| ==> !path[i].Root?
  }

  lemma NoCurDir(base: Path, n: nat)
    requires IsNormal(base) && n <= |base|
    ensures forall i :: 0 <= i < |base[n..]| ==> !base[n..][i].CurDir?
  {
    assert forall i :: 0 <= i < |base[n..]| ==> base[n..][i] == base[n + i];
  }

  lemma LeadsBack(cwd: Path, base: Path, n: nat, target: Path)
    requires IsAbsolute(cwd) && IsAbsolute(base) && IsNormal(base) && IsNormal(target)
    requires 0 < n <= |base| && n <= |target| && base[..n] == target[..n]
    requires StepsUp(base[n..]).Some?
    requires !IsAbsolute(StepsUp(base[n..]).value + target[n..])
    ensures Normalize(cwd, JoinPath(base, StepsUp(base[n..]).value + target[n..])) == target
  {
    var left, rest := base[n..], target[n..];
    var path := StepsUp(left).value + rest;
    NoCurDir(base, n);
    assert base == base[..n] + left && target == base[..n] + rest;
    RoundTrip(base[..n], left, rest);
    assert JoinPath(base, path) == base + path;
    WalkFixesNormal(base);
    WalkConcat([], base, path);
  }

  lemma RelativeShape(ups: Path, rest: Path, target: Path)
    requires AllUps(ups)
    requires |rest| < |target| && rest == target[|target| - |rest|..]
    requires IsNormal(target)
    ensures forall i :: 0 <= i < |ups + rest| ==> (ups + rest)[i].ParentDir? || (ups + rest)[i] in target[1..]
    ensures NoRoot(rest) && NoRoot(ups + rest)
  {
    var n := |target| - |rest|;
    assert forall i :: 0 <= i < |rest| ==> rest[i] == target[n + i] == target[1..][n + i - 1] && !rest[i].Root?;
  }

  lemma RoundTrip(shared: Path, left: Path, rest: Path)
    requires StepsUp(left).Some? && forall i :: 0 <= i < |left| ==> !left[i].CurDir?
    requires IsNormal(shared + rest)
    ensures Walk(shared + left, StepsUp(left).value + rest) == shared + rest
  {
    WalkConcat(shared + left, StepsUp(left).value, rest);
    StepsUpUndo(shared, left);
    WalkNormal(shared, rest);
  }

  // --- Where one path leads from two directories ---------------------------------

  function LeadingSteps(path: Path): (n: nat)
    ensures n <= |path| && forall i :: 0 <= i < n ==> path[i].ParentDir?
    ensures n < |path| ==> !path[n].ParentDir?
  {
    if |path| > 0 && path[0].ParentDir? then 1 + LeadingSteps(path[1..]) else 0
  }

  /** The parent steps left over once a path's names have undone those they can. */
  function Climb(path: Path): Path {
    Walk([], path)[..LeadingSteps(Walk([], path))]
  }

  /** A rootless path can be normalized on its own before it is walked. */
  lemma {:induction false} WalkNormalizedFirst(out: Path, path: Path)
    requires forall c <- path :: !c.Root?
    ensures Walk(out, path) == Walk(out, Walk([], path))
    ensures forall c <- Walk([], path) :: !c.Root?
    decreases |path|
  {
    if |path| > 0 {
      var init, last := path[..|path| - 1], path[|path| - 1];
      assert path == init + [last];
      WalkNormalizedFirst(out, init);
      WalkConcat(out, init, [last]);
      WalkConcat([], init, [last]);
      OneStepLater(out, Walk([], init), last);
    }
  }

  lemma OneStepLater(out: Path, rel: Path, c: Component)
    requires !c.Root?
    ensures Walk(out, Step(rel, c)) == Step(Walk(out, rel), c)
  {
    if c.ParentDir? && |rel| > 0 && rel[|rel| - 1].Normal? {
      var init, last := rel[..|rel| - 1], rel[|rel| - 1];
      assert rel == init + [last];
      WalkConcat(out, init, [last]);
      assert Walk(out, rel) == Walk(out, init) + [last];
    } else if !c.CurDir? {
      WalkConcat(out, rel, [c]);
    }
  }

  lemma {:induction false} NamesAppend(out: Path, names: Path)
    requires forall c <- names :: c.Normal?
    ensures Walk(out, names) == out + names
    decreases |names|
  {
    if |names| == 0 {
      assert out + names == out;
    } else {
      assert names[0] in names;
      assert forall c <- names[1..] :: c in names;
      NamesAppend(out + [names[0]], names[1..]);
      assert out + [names[0]] + names[1..] == out + names;
    }
  }

  lemma AfterClimbing(out: Path, path: Path)
    requires forall c <- path :: !c.Root?
    ensures var rel := Walk([], path); Walk(out, path) == Walk(out, Climb(path)) + rel[|Climb(path)|..]
  {
    var rel := Walk([], path);
    var n := LeadingSteps(rel);
    WalkNormalizedFirst(out, path);
    WalkIsNormal([], path);
    forall c | c in rel[n..] ensures c.Normal? {
      var i :| 0 <= i < |rel[n..]| && rel[n..][i] == c;
      assert c == rel[n + i] && rel[n + i] in rel;
      assert i > 0 ==> rel[n] in rel && rel[n].Normal?;
    }
    assert rel == rel[..n] + rel[n..];
    WalkConcat(out, rel[..n], rel[n..]);
    NamesAppend(Walk(out, rel[..n]), rel[n..]);
  }

  /** A rootless path leads from two directories to one place exactly when they meet where it stops climbing. */
  lemma LeadsAlikeIff(a: Path, b: Path, path: Path)
    requires forall c <- path :: !c.Root?
    ensures Walk(a, path) == Walk(b, path) <==> Walk(a, Climb(path)) == Walk(b, Climb(path))
  {
    AfterClimbing(a, path);
    AfterClimbing(b, path);
    SameSuffix(Walk(a, Climb(path)), Walk(b, Climb(path)), Walk([], path)[|Climb(path)|..]);
  }

  lemma SameSuffix<T>(s: seq<T>, t: seq<T>, suffix: seq<T>)
    ensures s + suffix == t + suffix <==> s == t
  {
    if s + suffix == t + suffix {
      assert |s| == |t|;
      assert s == (s + suffix)[..|s|] && t == (t + suffix)[..|t|];
    }
  }
}
