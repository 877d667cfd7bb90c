/** Resolving a "/"-separated path to a node and its index in its parent,
    as `getFileFromPath` does, and the round trip with the paths that
    `assignFilePaths` stores. */
module Resolver {
  import opened Paths
  import opened FileTree
  import opened PathSync

  /** Why a path does not lead to a folder: a segment before the last names
      no sibling, or names a file. (The code as written fails with a
      TypeError in both cases.) */
  datatype PathError = PathNotFound | NotAFolder

  datatype Result<+T> = Ok(value: T) | Err(error: PathError)

  /** The walked trail `r` placed below the trail `t`. */
  function Under(t: seq<nat>, r: Result<seq<nat>>): Result<seq<nat>>
  {
    match r
    case Ok(u) => Ok(t + u)
    case Err(e) => Err(e)
  }

  /** All segments but the last. */
  function Init(pieces: seq<string>): seq<string>
    requires |pieces| >= 1
  {
    pieces[..|pieces| - 1]
  }

  /** Walks down through the folders called `folders`, taking the first
      sibling of each name. On success the result is a valid trail whose
      folders carry exactly those names. */
  function Walk(files: seq<Node>, folders: seq<string>): (r: Result<seq<nat>>)
    ensures r.Ok? ==> ValidTrail(files, r.value) && TrailNames(files, r.value) == folders
    decreases folders
  {
    if folders == [] then Ok([])
    else
      var l := GetChildFileFromName(files, folders[0]);
      if l.file.None? then Err(PathNotFound)
      else if l.file.value.File? then Err(NotAFolder)
      else
        var r := Under([l.index as nat], Walk(l.file.value.children, folders[1..]));
        assert r.Ok? ==> r.value[1..] == Walk(l.file.value.children, folders[1..]).value;
        r
  }

  /** One step of the walk: the first folder name is looked up among
      `files`, and the rest is walked inside the folder found. */
  lemma WalkStep(files: seq<Node>, folders: seq<string>)
    requires |folders| >= 1
    ensures var l := GetChildFileFromName(files, folders[0]);
      Walk(files, folders) ==
        if l.file.None? then Err(PathNotFound)
        else if l.file.value.File? then Err(NotAFolder)
        else Under([l.index as nat], Walk(l.file.value.children, folders[1..]))
  {
  }

  /** Where `getFileFromPath` ends up for the segments `pieces`: the walk
      through all segments but the last, then the lookup of the last one
      among the children reached. */
  function Resolve(files: seq<Node>, pieces: seq<string>): (r: Result<Lookup>)
    requires |pieces| >= 1
    ensures Walk(files, Init(pieces)).Err? ==> r == Err(Walk(files, Init(pieces)).error)
    ensures Walk(files, Init(pieces)).Ok? ==> r.Ok?
    ensures r.Ok? ==> var s := ChildrenAt(files, Walk(files, Init(pieces)).value);
      && -1 <= r.value.index < |s|
      && (r.value.index == -1 <==> forall k :: 0 <= k < |s| ==> s[k].name != pieces[|pieces| - 1])
      && (r.value.index >= 0 ==> r.value.file == Some(s[r.value.index]) && s[r.value.index].name == pieces[|pieces| - 1])
  {
    match Walk(files, Init(pieces))
    case Err(e) => Err(e)
    case Ok(t) => Ok(GetChildFileFromName(ChildrenAt(files, t), pieces[|pieces| - 1]))
  }

  /** Resolving more than one segment is taking the first one as a folder
      and resolving the rest inside it. */
  lemma ResolveStep(files: seq<Node>, pieces: seq<string>)
    requires |pieces| > 1
    ensures var l := GetChildFileFromName(files, pieces[0]);
      Resolve(files, pieces) ==
        if l.file.None? then Err(PathNotFound)
        else if l.file.value.File? then Err(NotAFolder)
        else Resolve(l.file.value.children, pieces[1..])
  {
    assert Init(pieces)[1..] == Init(pieces[1..]);
  }

  /** The file object and its index in its parent for `path`. */
  method GetFileFromPath(files: seq<Node>, path: string) returns (r: Result<Lookup>)
    ensures r == Resolve(files, Split(path))
  {
    var currentFolder := files;
    var pathPieces := Split(path);
    while |pathPieces| > 1
      invariant |pathPieces| >= 1
      invariant Resolve(currentFolder, pathPieces) == Resolve(files, Split(path))
      decreases |pathPieces|
    {
      ResolveStep(currentFolder, pathPieces);
      var folderName := pathPieces[0];
      pathPieces := pathPieces[1..];
      var l := GetChildFileFromName(currentFolder, folderName);
      if l.file.None? {
        return Err(PathNotFound);
      }
      if l.file.value.File? {
        return Err(NotAFolder);
      }
      currentFolder := l.file.value.children;
    }
    return Ok(GetChildFileFromName(currentFolder, pathPieces[0]));
  }

  /** With unique sibling names, walking the names along a trail finds
      exactly that trail. */
  lemma {:induction false} WalkComplete(files: seq<Node>, t: seq<nat>)
    requires UniqueNames(files) && ValidTrail(files, t)
    ensures Walk(files, TrailNames(files, t)) == Ok(t)
    decreases t
  {
    if t != [] {
      var names := TrailNames(files, t);
      LookupUnique(files, t[0]);
      WalkComplete(files[t[0]].children, t[1..]);
      assert names[1..] == TrailNames(files[t[0]].children, t[1..]);
      assert t == [t[0]] + t[1..];
    }
  }

  /** With unique sibling names, resolving the names from the top level down
      to a node gives that node and its index in its parent. */
  lemma ResolveNames(files: seq<Node>, t: seq<nat>, i: nat)
    requires UniqueNames(files) && ValidTrail(files, t) && i < |ChildrenAt(files, t)|
    ensures var node := ChildrenAt(files, t)[i];
      Resolve(files, TrailNames(files, t) + [node.name]) == Ok(Lookup(i, Some(node)))
  {
    var names := TrailNames(files, t) + [ChildrenAt(files, t)[i].name];
    assert Init(names) == TrailNames(files, t);
    WalkComplete(files, t);
    UniqueAt(files, t);
    LookupUnique(ChildrenAt(files, t), i);
  }

  /** The resolver round trip: in a tree whose paths are in sync from the
      root, whose names are non-empty and free of "/", and whose sibling
      names are unique, every node's stored path resolves to that node and
      its index in its parent. */
  lemma PathRoundTrip(files: seq<Node>, t: seq<nat>, i: nat)
    requires Synced(files, "") && WellNamed(files) && UniqueNames(files)
    requires ValidTrail(files, t) && i < |ChildrenAt(files, t)|
    ensures var node := ChildrenAt(files, t)[i];
      Resolve(files, Split(node.path)) == Ok(Lookup(i, Some(node)))
  {
    var node := ChildrenAt(files, t)[i];
    var names := TrailNames(files, t) + [node.name];
    WellNamedAt(files, t);
    PathInvariant(files, t, i);
    PathAlongSplit(names);
    ResolveNames(files, t, i);
  }

  /** The round trip for what `AssignFilePaths(files, "")` returns (its two
      postconditions are the first two requirements): when the input's
      names are non-empty, free of "/" and unique among siblings, every node
      of the input has its counterpart in the result at the same place, with
      the same name and kind, and that counterpart's new path resolves to it
      and to its index in its parent. */
  lemma AssignRoundTrip(files: seq<Node>, r: seq<Node>, t: seq<nat>, i: nat)
    requires SameShape(r, files) && Synced(r, "")
    requires WellNamed(files) && UniqueNames(files)
    requires ValidTrail(files, t) && i < |ChildrenAt(files, t)|
    ensures ValidTrail(r, t) && i < |ChildrenAt(r, t)|
    ensures var node := ChildrenAt(r, t)[i];
      && node.name == ChildrenAt(files, t)[i].name
      && node.Folder? == ChildrenAt(files, t)[i].Folder?
      && Resolve(r, Split(node.path)) == Ok(Lookup(i, Some(node)))
  {
    SameShapeSym(r, files);
    SameShapeKeeps(r, files);
    SameShapeTrail(files, r, t);
    PathRoundTrip(r, t, i);
  }

  /** A path without "/" is looked up directly among the top-level nodes. */
  lemma SingleSegment(files: seq<Node>, path: string)
    requires Sep !in path
    ensures Resolve(files, Split(path)) == Ok(GetChildFileFromName(files, path))
  {
    SplitNoSep(path);
  }
}
