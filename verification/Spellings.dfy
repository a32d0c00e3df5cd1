/** How a `source("...")` literal spells a path, after `src/project/source.rs`. */
module Spellings {
  import opened Common
  import opened Paths
  import Strings

  // Which spellings count as relative, the components of a spelling, and writing
  // a path with forward slashes. Written and read again, a path is itself; only a
  // relative one can come out looking rooted.

  function OfSegment(segment: string): Path
    requires '/' !in segment
  {
    if segment == "" then []
    else if segment == "." then [CurDir]
    else if segment == ".." then [ParentDir]
    else [Normal(segment)]
  }

  function OfSegments(segments: seq<string>): (path: Path)
    requires forall s <- segments, c <- s :: c != '/'
    ensures forall c <- path :: !c.Root?
  {
    if |segments| == 0 then [] else OfSegment(segments[0]) + OfSegments(segments[1..])
  }

  /** `Path::new(spelling)`, component by component. */
  function PathOf(spelling: string): Path {
    (if spelling != "" && spelling[0] == '/' then [Root] else [])
    + OfSegments(Strings.Split(spelling, {'/'}))
  }

  function Segment(c: Component): (segment: string)
    ensures '/' !in segment
    ensures !c.Root? ==> segment != "" && OfSegment(segment) == [c]
  {
    match c
    case Root => ""
    case CurDir => "."
    case ParentDir => ".."
    case Normal(name) => name
  }

  function Segments(path: Path): (segments: seq<string>)
    ensures |segments| == |path|
    ensures forall i :: 0 <= i < |path| ==> segments[i] == Segment(path[i])
    ensures forall s <- segments, c <- s :: c != '/'
  {
    if |path| == 0 then [] else [Segment(path[0])] + Segments(path[1..])
  }

  /** `to_forward_slash`: a path written with R's separator. */
  function Render(path: Path): string {
    if IsAbsolute(path) then ['/'] + Strings.Join(Segments(path[1..]), '/')
    else Strings.Join(Segments(path), '/')
  }

  predicate IsLetter(c: char) {
    'a' <= c <= 'z' || 'A' <= c <= 'Z'
  }

  /** The host-independent test: rooted means a leading slash, backslash or drive letter. */
  predicate IsRelativeSpelling(spelling: string) {
    !(|spelling| > 0 && (spelling[0] == '/' || spelling[0] == '\\'))
    && !(|spelling| > 1 && IsLetter(spelling[0]) && spelling[1] == ':')
  }

  /** The file a literal names when read in `dir`. */
  function Reads(cwd: Path, dir: Option<Path>, spelling: string): Path {
    if IsRelativeSpelling(spelling) && dir.Some? then
      Normalize(cwd, JoinPath(dir.value, PathOf(spelling)))
    else Normalize(cwd, PathOf(spelling))
  }

  /** A spelling is relative unless it starts with a slash, a backslash, or an ASCII letter and a colon. */
  lemma RelativeSpellingIff(spelling: string)
    ensures IsRelativeSpelling(spelling) <==>
      || spelling == ""
      || (spelling[0] != '/' && spelling[0] != '\\'
          && !(|spelling| > 1 && spelling[1] == ':'
               && (65 <= spelling[0] as int <= 90 || 97 <= spelling[0] as int <= 122)))
  {
  }

  // --- Writing a path and reading it back ------------------------------------

  lemma {:induction false} SegmentsReadBack(path: Path)
    requires forall c <- path :: !c.Root?
    ensures OfSegments(Segments(path)) == path
  {
    if |path| > 0 {
      assert path[0] in path;
      assert forall c <- path[1..] :: c in path;
      SegmentsReadBack(path[1..]);
      assert path == [path[0]] + path[1..];
    }
  }

  lemma JoinStart(segments: seq<string>)
    requires |segments| > 0 && segments[0] != "" && '/' !in segments[0]
    ensures Strings.Join(segments, '/') != "" && Strings.Join(segments, '/')[0] == segments[0][0] != '/'
  {
    assert segments[0][0] in segments[0];
  }

  lemma NamesReadBack(names: Path)
    requires forall c <- names :: !c.Root?
    ensures var text := Strings.Join(Segments(names), '/');
      && OfSegments(Strings.Split(text, {'/'})) == names
      && (text == "" || text[0] != '/')
  {
    SegmentsReadBack(names);
    if |names| > 0 {
      assert names[0] in names;
      Strings.SplitJoin(Segments(names), '/', {'/'});
      JoinStart(Segments(names));
    }
  }

  /** A rendered path reads back as itself. */
  lemma RenderReadsBack(path: Path)
    requires forall i :: 0 < i < |path| ==> !path[i].Root?
    ensures PathOf(Render(path)) == path
  {
    var names := if IsAbsolute(path) then path[1..] else path;
    assert forall c <- names :: !c.Root?;
    NamesReadBack(names);
    if IsAbsolute(path) {
      RootReadsBack(Strings.Join(Segments(names), '/'));
      assert path == [Root] + names;
    } else {
      assert [] + names == path;
    }
  }

  lemma RootReadsBack(text: string)
    ensures PathOf(['/'] + text) == [Root] + OfSegments(Strings.Split(text, {'/'}))
  {
    var segments := Strings.Split(text, {'/'});
    assert (['/'] + text)[1..] == text;
    assert Strings.Split(['/'] + text, {'/'}) == [""] + segments;
    assert ([""] + segments)[1..] == segments;
    assert OfSegments([""] + segments) == OfSegments(segments);
  }

  /** An absolute path is never written so that it looks relative. */
  lemma RenderedAbsoluteIsRooted(path: Path)
    requires IsAbsolute(path)
    ensures !IsRelativeSpelling(Render(path))
  {
  }
}
