/** The virtual file tree: nodes, sibling lookup by name, the folder
    collision check, and the addressing (trails of child indices) that the
    path operations and their proofs use. */
module FileTree {
  import opened Paths

  datatype Option<+T> = None | Some(value: T)

  /** A file or a folder. The folder variant owns its ordered children;
      `path` is the derived, non-authoritative path attribute. */
  datatype Node =
    | File(name: string, path: string)
    | Folder(name: string, children: seq<Node>, path: string)

  /** What a sibling lookup reports: the index within the sibling sequence
      (-1 when absent) and the node found there. */
  datatype Lookup = Lookup(index: int, file: Option<Node>)

  /** The first sibling called `name` and its index, as
      `files.findIndex(file => file.name === name)` with `files[index]`:
      index -1 and no node when no sibling has that name. */
  function GetChildFileFromName(files: seq<Node>, name: string): (r: Lookup)
    ensures -1 <= r.index < |files|
    ensures r.index == -1 <==> forall k :: 0 <= k < |files| ==> files[k].name != name
    ensures r.index == -1 ==> r.file == None
    ensures 0 <= r.index ==> r.file == Some(files[r.index]) && files[r.index].name == name
    ensures forall k :: 0 <= k < r.index ==> files[k].name != name
  {
    if files == [] then Lookup(-1, None)
    else if files[0].name == name then Lookup(0, Some(files[0]))
    else
      var rest := GetChildFileFromName(files[1..], name);
      if rest.index == -1 then rest else Lookup(rest.index + 1, rest.file)
  }

  /** Whether an immediate child of `folder` is called `name`. */
  function DoesFileExistInFolder(folder: Node, name: string): (r: bool)
    requires folder.Folder?
    ensures r <==> exists k :: 0 <= k < |folder.children| && folder.children[k].name == name
    ensures folder.children == [] ==> !r
  {
    GetChildFileFromName(folder.children, name).file.Some?
  }

  /** No two siblings share a name, at every level. */
  ghost predicate UniqueNames(files: seq<Node>)
  {
    && (forall j, k :: 0 <= j < k < |files| ==> files[j].name != files[k].name)
    && (forall k :: 0 <= k < |files| && files[k].Folder? ==> UniqueNames(files[k].children))
  }

  /** Every name, at every level, is non-empty and has no separator. */
  ghost predicate WellNamed(files: seq<Node>)
  {
    forall k :: 0 <= k < |files| ==>
      && files[k].name != ""
      && Sep !in files[k].name
      && (files[k].Folder? ==> WellNamed(files[k].children))
  }

  /** With unique sibling names, looking up a sibling's name finds that sibling. */
  lemma LookupUnique(files: seq<Node>, i: nat)
    requires i < |files|
    requires forall j, k :: 0 <= j < k < |files| ==> files[j].name != files[k].name
    ensures GetChildFileFromName(files, files[i].name) == Lookup(i, Some(files[i]))
  {
  }

  /** The lookup sees only names: siblings with the same names in the same
      order give the same index. */
  lemma LookupByNames(a: seq<Node>, b: seq<Node>, name: string)
    requires |a| == |b| && forall k :: 0 <= k < |a| ==> a[k].name == b[k].name
    ensures GetChildFileFromName(a, name).index == GetChildFileFromName(b, name).index
  {
  }

  /** A trail is the sequence of child indices of the folders walked from
      the top level down; it is valid when each index names a folder. */
  ghost predicate ValidTrail(files: seq<Node>, t: seq<nat>)
    decreases t
  {
    t == [] || (t[0] < |files| && files[t[0]].Folder? && ValidTrail(files[t[0]].children, t[1..]))
  }

  /** The child sequence of the folder at the end of trail `t` (the top
      level for the empty trail). */
  function ChildrenAt(files: seq<Node>, t: seq<nat>): seq<Node>
    requires ValidTrail(files, t)
    decreases t
  {
    if t == [] then files else ChildrenAt(files[t[0]].children, t[1..])
  }

  /** The names of the folders along trail `t`. */
  function TrailNames(files: seq<Node>, t: seq<nat>): (r: seq<string>)
    requires ValidTrail(files, t)
    ensures |r| == |t|
    decreases t
  {
    if t == [] then [] else [files[t[0]].name] + TrailNames(files[t[0]].children, t[1..])
  }

  /** `a` is a prefix of `b`. */
  predicate IsPrefix(a: seq<nat>, b: seq<nat>)
  {
    |a| <= |b| && b[..|a|] == a
  }

  /** Extending a trail by one folder descends into that folder's children. */
  lemma {:induction false} ChildrenAtSnoc(files: seq<Node>, t: seq<nat>, j: nat)
    requires ValidTrail(files, t)
    requires j < |ChildrenAt(files, t)| && ChildrenAt(files, t)[j].Folder?
    ensures ValidTrail(files, t + [j])
    ensures ChildrenAt(files, t + [j]) == ChildrenAt(files, t)[j].children
    ensures TrailNames(files, t + [j]) == TrailNames(files, t) + [ChildrenAt(files, t)[j].name]
    decreases t
  {
    if t == [] {
      assert [j][1..] == [];
    } else {
      ChildrenAtSnoc(files[t[0]].children, t[1..], j);
      assert (t + [j])[1..] == t[1..] + [j];
    }
  }

  /** Sibling names stay unique at the end of any trail. */
  lemma {:induction false} UniqueAt(files: seq<Node>, t: seq<nat>)
    requires UniqueNames(files) && ValidTrail(files, t)
    ensures UniqueNames(ChildrenAt(files, t))
    decreases t
  {
    if t != [] {
      UniqueAt(files[t[0]].children, t[1..]);
    }
  }

  /** Names stay well formed at the end of any trail, and so do the names
      along it. */
  lemma {:induction false} WellNamedAt(files: seq<Node>, t: seq<nat>)
    requires WellNamed(files) && ValidTrail(files, t)
    ensures WellNamed(ChildrenAt(files, t))
    ensures forall k :: 0 <= k < |t| ==> TrailNames(files, t)[k] != "" && Sep !in TrailNames(files, t)[k]
    decreases t
  {
    if t != [] {
      WellNamedAt(files[t[0]].children, t[1..]);
      var rest := TrailNames(files[t[0]].children, t[1..]);
      assert TrailNames(files, t) == [files[t[0]].name] + rest;
    }
  }
}
