/**
 * Guarded inputs of `src/incremental.rs`: files tracked by normalized path,
 * and the workspace's file set. A write happens only when something changed.
 */
module TrackedInputs {
  import opened Common
  import opened Paths
  import opened StableSort

  type FileId = nat

  /** A handle on one input; the identity it was allocated rides along. */
  datatype Handle = Handle(index: nat, id: FileId)

  datatype SourceFile = SourceFile(id: FileId, path: Option<Path>, text: string)

  datatype Workspace = Workspace(members: seq<Handle>, roots: seq<Path>)

  predicate IdLe(a: Handle, b: Handle) {
    a.id <= b.id
  }

  /** The stored form of a member list: sorted by identity, without repetitions. */
  function Canonical(members: seq<Handle>): (canonical: seq<Handle>)
    ensures forall h :: h in canonical <==> h in members
  {
    assert forall h :: h in Sort(IdLe, members) <==> h in multiset(Sort(IdLe, members));
    assert forall h :: h in members <==> h in multiset(members);
    Dedup(Sort(IdLe, members))
  }

  ghost predicate DistinctIds(members: seq<Handle>) {
    forall g, h :: g in members && h in members && g.id == h.id ==> g == h
  }

  ghost predicate Increasing(s: seq<Handle>) {
    forall i, j :: 0 <= i < j < |s| ==> s[i].id < s[j].id
  }

  lemma {:induction false} DedupIsIncreasing(s: seq<Handle>)
    requires Sorted(IdLe, s) && DistinctIds(s)
    ensures Increasing(Dedup(s))
  {
    if |s| > 0 {
      DedupIsIncreasing(s[1..]);
      var rest := Dedup(s[1..]);
      if |rest| > 0 && rest[0] != s[0] {
        forall k | 0 <= k < |rest| ensures s[0].id < rest[k].id {
          assert rest[0] in s && rest[0] == s[1];
          assert rest[0].id <= rest[k].id;
        }
      }
    }
  }

  lemma CanonicalIsIncreasing(members: seq<Handle>)
    requires DistinctIds(members)
    ensures Increasing(Canonical(members))
  {
    SortIsStable(IdLe, members);
    assert forall h :: h in Sort(IdLe, members) <==> h in multiset(Sort(IdLe, members));
    assert forall h :: h in members <==> h in multiset(members);
    DedupIsIncreasing(Sort(IdLe, members));
  }

  lemma {:induction false} IncreasingIsUnique(s: seq<Handle>, t: seq<Handle>)
    requires Increasing(s) && Increasing(t)
    requires forall h :: h in s <==> h in t
    ensures s == t
    decreases |s|
  {
    assert |t| > 0 ==> t[0] in t;
    if |s| > 0 {
      assert s[0] in t;
      assert t[0] in s;
      assert s[0] == t[0];
      forall h ensures h in s[1..] <==> h in t[1..] {
        assert h in s[1..] <==> h in s && h.id != s[0].id;
        assert h in t[1..] <==> h in t && h.id != t[0].id;
      }
      IncreasingIsUnique(s[1..], t[1..]);
    }
  }

  /** Two member lists are stored alike exactly when they hold the same files. */
  lemma CanonicalIffSameFiles(members: seq<Handle>, others: seq<Handle>)
    requires DistinctIds(members + others)
    ensures Canonical(members) == Canonical(others) <==> forall h :: h in members <==> h in others
  {
    assert forall h :: h in members ==> h in members + others;
    assert forall h :: h in others ==> h in members + others;
    CanonicalIsIncreasing(members);
    CanonicalIsIncreasing(others);
    if forall h :: h in members <==> h in others {
      IncreasingIsUnique(Canonical(members), Canonical(others));
    } else {
      var h :| !(h in members <==> h in others);
      assert !(h in Canonical(members) <==> h in Canonical(others));
    }
  }

  /** The writer's view of the database. `revision` counts the writes to existing inputs. */
  class Database {
    const cwd: Path
    var files: seq<SourceFile>
    var byPath: map<Path, nat>
    var nextId: FileId
    var workspace: Option<Workspace>
    var revision: nat
    /** How often the package metadata was discovered anew. */
    var discoveries: nat

    ghost predicate Valid()
      reads this
    {
      && (forall i :: 0 <= i < |files| ==> files[i].id < nextId)
      && (forall i, j :: 0 <= i < j < |files| ==> files[i].id != files[j].id)
      && (forall key :: key in byPath ==>
            && byPath[key] < |files|
            && files[byPath[key]].path.Some?
            && Normalize(cwd, files[byPath[key]].path.value) == key)
    }

    ghost predicate Tracks(h: Handle)
      reads this
    {
      h.index < |files| && files[h.index].id == h.id
    }

    constructor (cwd: Path)
      ensures Valid() && this.cwd == cwd && files == [] && byPath == map[] && workspace == None
    {
      this.cwd := cwd;
      files, byPath, nextId, workspace := [], map[], 0, None;
      revision, discoveries := 0, 0;
    }

    method AllocId() returns (id: FileId)
      modifies this`nextId
      ensures id == old(nextId) && nextId == old(nextId) + 1
    {
      id := nextId;
      nextId := nextId + 1;
    }

    /** An in-memory document: a fresh identity and no path, so it aliases nothing. */
    method AddFile(text: string) returns (h: Handle)
      requires Valid()
      modifies this`files, this`nextId
      ensures Valid() && Tracks(h)
      ensures forall g :: old(Tracks(g)) ==> Tracks(g)
      ensures files == old(files) + [SourceFile(h.id, None, text)]
      ensures forall i :: 0 <= i < |old(files)| ==> old(files)[i].id != h.id
    {
      var id := AllocId();
      h := Handle(|files|, id);
      files := files + [SourceFile(id, None, text)];
    }

    /** Paths share an input exactly when they normalize alike. */
    lemma EqualPathsShareOneInput(p: Path, q: Path)
      requires Valid() && Normalize(cwd, p) in byPath && Normalize(cwd, q) in byPath
      ensures byPath[Normalize(cwd, p)] == byPath[Normalize(cwd, q)] <==> Normalize(cwd, p) == Normalize(cwd, q)
    {
    }

    /** Reuse the input of an equivalent path, writing only a different text. */
    method UpsertFile(path: Path, text: string) returns (h: Handle)
      requires Valid()
      modifies this`files, this`byPath, this`nextId, this`revision
      ensures Valid() && Tracks(h)
      ensures forall g :: old(Tracks(g)) ==> Tracks(g)
      ensures byPath == old(byPath)[Normalize(cwd, path) := h.index]
      ensures forall p :: Normalize(cwd, p) in byPath ==>
        (byPath[Normalize(cwd, p)] == h.index <==> Normalize(cwd, p) == Normalize(cwd, path))
      ensures files[h.index].text == text
      ensures old(Normalize(cwd, path) in byPath) ==>
        && h.index == old(byPath[Normalize(cwd, path)])
        && nextId == old(nextId)
        && files == old(files)[h.index := old(files)[h.index].(text := text)]
        && revision == old(revision) + (if old(files)[h.index].text != text then 1 else 0)
      ensures old(Normalize(cwd, path) !in byPath) ==>
        && h == Handle(|old(files)|, old(nextId))
        && files == old(files) + [SourceFile(h.id, Some(path), text)]
        && nextId == old(nextId) + 1
        && revision == old(revision)
    {
      var key := NormalizePath(cwd, path);
      if key in byPath {
        h := Handle(byPath[key], files[byPath[key]].id);
        if files[h.index].text != text {
          SetFileText(h, text);
        }
      } else {
        h := Track(key, path, text);
      }
      forall p | Normalize(cwd, p) in byPath
        ensures byPath[Normalize(cwd, p)] == h.index <==> Normalize(cwd, p) == key
      {
        EqualPathsShareOneInput(p, path);
      }
    }

    method SetFileText(h: Handle, text: string)
      requires Valid() && Tracks(h)
      modifies this`files, this`revision
      ensures Valid() && Tracks(h)
      ensures files == old(files)[h.index := old(files)[h.index].(text := text)]
      ensures revision == old(revision) + 1
    {
      files := files[h.index := files[h.index].(text := text)];
      revision := revision + 1;
    }

    method Track(key: Path, path: Path, text: string) returns (h: Handle)
      requires Valid() && key == Normalize(cwd, path) && key !in byPath
      modifies this`files, this`byPath, this`nextId
      ensures Valid() && Tracks(h)
      ensures h == Handle(|old(files)|, old(nextId)) && nextId == old(nextId) + 1
      ensures files == old(files) + [SourceFile(h.id, Some(path), text)]
      ensures byPath == old(byPath)[key := h.index]
    {
      var id := AllocId();
      h := Handle(|files|, id);
      files := files + [SourceFile(id, Some(path), text)];
      byPath := byPath[key := h.index];
    }

    /** The tracked input for `path`; never inserts. */
    method LookupFile(path: Path) returns (h: Option<Handle>)
      requires Valid()
      ensures h.Some? <==> Normalize(cwd, path) in byPath
      ensures h.Some? ==> Tracks(h.value) && h.value.index == byPath[Normalize(cwd, path)]
    {
      var key := NormalizePath(cwd, path);
      h := if key in byPath then Some(Handle(byPath[key], files[byPath[key]].id)) else None;
    }

    /** Handles on tracked files are told apart by their identities. */
    lemma TrackedAreDistinct(members: seq<Handle>)
      requires Valid() && forall h :: h in members ==> Tracks(h)
      ensures DistinctIds(members)
    {
      forall g, h | g in members && h in members && g.id == h.id ensures g == h {
        assert Tracks(g) && Tracks(h);
      }
    }

    /** Member lists of tracked files are stored alike exactly when they hold the same files. */
    lemma TrackedListsAreStoredAlikeIff(members: seq<Handle>, others: seq<Handle>)
      requires Valid() && forall h :: h in members || h in others ==> Tracks(h)
      ensures Canonical(members) == Canonical(others) <==> forall h :: h in members <==> h in others
      ensures Increasing(Canonical(members))
    {
      TrackedAreDistinct(members + others);
      TrackedAreDistinct(members);
      CanonicalIffSameFiles(members, others);
      CanonicalIsIncreasing(members);
    }

    /** Store the file set canonically; skip each write that would change nothing. */
    method SetWorkspaceMembers(members: seq<Handle>, roots: seq<Path>)
      modifies this`workspace, this`revision, this`discoveries
      ensures workspace == Some(Workspace(Canonical(members), roots))
      ensures revision == old(revision) + WritesFor(old(workspace), Workspace(Canonical(members), roots))
      ensures discoveries == old(discoveries) + (if old(workspace) == workspace then 0 else 1)
    {
      var sorted := Dedup(Sort(IdLe, members));
      var changed := true;
      match workspace {
        case Some(ws) =>
          changed := false;
          if ws.members != sorted {
            workspace := Some(Workspace(sorted, ws.roots));
            revision := revision + 1;
            changed := true;
          }
          if ws.roots != roots {
            workspace := Some(Workspace(sorted, roots));
            revision := revision + 1;
            changed := true;
          }
        case None =>
          workspace := Some(Workspace(sorted, roots));
          revision := revision + 2;
      }
      if changed {
        discoveries := discoveries + 1;
      }
    }
  }

  /** The input writes one seeding causes; the first one writes both fields. */
  function WritesFor(before: Option<Workspace>, after: Workspace): nat {
    match before
    case None => 2
    case Some(ws) =>
      (if ws.members != after.members then 1 else 0) + (if ws.roots != after.roots then 1 else 0)
  }

  /**
   * Seeding again with the same files, in any order and any number of times,
   * and the same roots writes nothing; anything else does write.
   */
  lemma ReseedingWritesNothingIff(
      members: seq<Handle>, roots: seq<Path>, again: seq<Handle>, againRoots: seq<Path>)
    requires DistinctIds(members + again)
    ensures WritesFor(Some(Workspace(Canonical(members), roots)), Workspace(Canonical(again), againRoots)) == 0
       <==> roots == againRoots && forall h :: h in members <==> h in again
  {
    CanonicalIffSameFiles(members, again);
  }
}
