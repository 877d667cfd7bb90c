/** Removing the node at a path, as `removeFileAtPath` does: the same walk
    as the resolver, then `splice(index, 1)` on the parent's children. */
module Remover {
  import opened Paths
  import opened FileTree
  import opened PathSync
  import opened Resolver

  /** What is left of `s` after JavaScript's `s.splice(start, 1)`: a
      negative start counts from the end (clamped at 0), a start past the
      end removes nothing. */
  function Splice<T>(s: seq<T>, start: int): (r: seq<T>)
    ensures 0 <= start < |s| ==> r == s[..start] + s[start + 1..]
    ensures start == -1 && s != [] ==> r == s[..|s| - 1]
    ensures start >= |s| || s == [] ==> r == s
    ensures exists k :: 0 <= k <= |s| && r == s[..k] + (if k < |s| then s[k + 1..] else [])
  {
    var k := if start < 0 then (if |s| + start < 0 then 0 else |s| + start)
             else if start > |s| then |s| else start;
    if k < |s| then s[..k] + s[k + 1..] else assert s == s[..|s|] + []; s
  }

  /** The tree with the children of the folder at the end of trail `t`
      replaced by `s`: the write through the parent's children array, seen
      from the top level. */
  function WithChildrenAt(files: seq<Node>, t: seq<nat>, s: seq<Node>): (r: seq<Node>)
    requires ValidTrail(files, t)
    ensures ValidTrail(r, t) && ChildrenAt(r, t) == s
    ensures TrailNames(r, t) == TrailNames(files, t)
    ensures t != [] ==> |r| == |files|
    decreases t
  {
    if t == [] then s
    else
      var f := files[t[0]];
      var r := files[t[0] := f.(children := WithChildrenAt(f.children, t[1..], s))];
      assert r[t[0]].children == WithChildrenAt(f.children, t[1..], s);
      r
  }

  /** The tree `removeFileAtPath` leaves for the segments `pieces`, or the
      error where the code as written fails. When the last segment is not
      found, the index is -1 and the splice removes the LAST sibling. */
  function Remove(files: seq<Node>, pieces: seq<string>): (r: Result<seq<Node>>)
    requires |pieces| >= 1
    ensures Walk(files, Init(pieces)).Err? ==> r == Err(Walk(files, Init(pieces)).error)
    ensures Walk(files, Init(pieces)).Ok? ==> r.Ok?
    ensures r.Ok? ==> var t := Walk(files, Init(pieces)).value;
      && ValidTrail(r.value, t)
      && TrailNames(r.value, t) == Init(pieces)
      && |ChildrenAt(r.value, t)| == if ChildrenAt(files, t) == [] then 0 else |ChildrenAt(files, t)| - 1
  {
    match Walk(files, Init(pieces))
    case Err(e) => Err(e)
    case Ok(t) =>
      var siblings := ChildrenAt(files, t);
      var index := GetChildFileFromName(siblings, pieces[|pieces| - 1]).index;
      Ok(WithChildrenAt(files, t, Splice(siblings, index)))
  }

  /** Removes the node at `path` from its parent's children. */
  method RemoveFileAtPath(files: seq<Node>, path: string) returns (r: Result<seq<Node>>)
    ensures r == Remove(files, Split(path))
  {
    ghost var pieces := Split(path);
    var currentFolder := files;
    var pathPieces := Split(path);
    var trail: seq<nat> := [];
    UnderNested([], [], Walk(files, Init(pieces)));
    while |pathPieces| > 1
      invariant 1 <= |pathPieces| <= |pieces|
      invariant pathPieces == pieces[|pieces| - |pathPieces|..]
      invariant ValidTrail(files, trail) && currentFolder == ChildrenAt(files, trail)
      invariant Walk(files, Init(pieces)) == Under(trail, Walk(currentFolder, Init(pathPieces)))
      decreases |pathPieces|
    {
      var folderName := pathPieces[0];
      WalkStep(currentFolder, Init(pathPieces));
      assert Init(pathPieces)[1..] == Init(pathPieces[1..]);
      pathPieces := pathPieces[1..];
      var l := GetChildFileFromName(currentFolder, folderName);
      if l.file.None? {
        return Err(PathNotFound);
      }
      if l.file.value.File? {
        return Err(NotAFolder);
      }
      ChildrenAtSnoc(files, trail, l.index);
      UnderNested(trail, [l.index], Walk(l.file.value.children, Init(pathPieces)));
      trail := trail + [l.index];
      currentFolder := l.file.value.children;
    }
    assert Walk(currentFolder, Init(pathPieces)) == Ok([]);
    assert trail + [] == trail;
    assert pieces[|pieces| - 1] == pathPieces[0];
    var index := GetChildFileFromName(currentFolder, pathPieces[0]).index;
    r := Ok(WithChildrenAt(files, trail, Splice(currentFolder, index)));
  }

  /** Placing a walk below `u` and then below `t` is placing it below `t + u`. */
  lemma UnderNested(t: seq<nat>, u: seq<nat>, r: Result<seq<nat>>)
    ensures Under(t, Under(u, r)) == Under(t + u, r)
    ensures Under([], r) == r
  {
    if r.Ok? {
      assert t + (u + r.value) == (t + u) + r.value;
      assert [] + r.value == r.value;
    }
  }

  /** Removal with the defect fixed: a last segment that names no sibling
      is an error and nothing is removed; otherwise the same as `Remove`. */
  function RemoveChecked(files: seq<Node>, pieces: seq<string>): (r: Result<seq<Node>>)
    requires |pieces| >= 1
    ensures Resolve(files, pieces).Err? ==> r == Err(Resolve(files, pieces).error)
    ensures Resolve(files, pieces).Ok? && Resolve(files, pieces).value.index == -1 ==> r == Err(PathNotFound)
    ensures Resolve(files, pieces).Ok? && Resolve(files, pieces).value.index >= 0 ==> r == Remove(files, pieces)
  {
    match Walk(files, Init(pieces))
    case Err(e) => Err(e)
    case Ok(t) =>
      var siblings := ChildrenAt(files, t);
      var index := GetChildFileFromName(siblings, pieces[|pieces| - 1]).index;
      if index == -1 then Err(PathNotFound)
      else Ok(WithChildrenAt(files, t, siblings[..index] + siblings[index + 1..]))
  }

  /** `a` and `b` agree on everything but their children. */
  predicate SameHead(a: Node, b: Node)
  {
    a.name == b.name && a.path == b.path && a.Folder? == b.Folder?
  }

  lemma PrefixTail(a: seq<nat>, b: seq<nat>)
    requires |a| >= 1 && |b| >= 1 && a[0] == b[0]
    ensures IsPrefix(a, b) <==> IsPrefix(a[1..], b[1..])
  {
    if |a| <= |b| {
      assert b[..|a|] == [b[0]] + b[1..][..|a| - 1];
      assert a == [a[0]] + a[1..];
    }
  }

  /** Replacing the children at the end of trail `t` changes nothing
      outside that folder: at every other place of the tree the sibling
      sequences keep their length, every node keeps its name, kind and
      path, and every node that is not an ancestor of the folder (or the
      folder itself) is unchanged with all it contains. */
  lemma {:induction false} WithChildrenAtFrame(files: seq<Node>, t: seq<nat>, s: seq<Node>, u: seq<nat>, k: nat)
    requires ValidTrail(files, t) && ValidTrail(files, u) && !IsPrefix(t, u)
    requires k < |ChildrenAt(files, u)|
    ensures ValidTrail(WithChildrenAt(files, t, s), u)
    ensures var before, after := ChildrenAt(files, u), ChildrenAt(WithChildrenAt(files, t, s), u);
      && |after| == |before|
      && SameHead(after[k], before[k])
      && (!IsPrefix(u + [k], t) ==> after[k] == before[k])
    decreases u
  {
    var n := WithChildrenAt(files, t, s);
    assert t != [] by {
      assert u[..0] == [];
    }
    var f := files[t[0]];
    assert n == files[t[0] := f.(children := WithChildrenAt(f.children, t[1..], s))];
    if u == [] {
      assert IsPrefix([k], t) <==> k == t[0] by {
        assert t[..1] == [t[0]];
      }
    } else if u[0] != t[0] {
      assert n[u[0]] == files[u[0]];
      assert !IsPrefix(u + [k], t) by {
        assert (u + [k])[0] == u[0];
      }
    } else {
      PrefixTail(t, u);
      PrefixTail(u + [k], t);
      assert (u + [k])[1..] == u[1..] + [k];
      WithChildrenAtFrame(f.children, t[1..], s, u[1..], k);
    }
  }

  /** Grafting children that are in sync below the folder's path keeps the
      whole tree in sync. */
  lemma {:induction false} WithChildrenAtSynced(files: seq<Node>, parentPath: string, t: seq<nat>, s: seq<Node>)
    requires ValidTrail(files, t) && Synced(files, parentPath)
    requires Synced(s, PathAlong(parentPath, TrailNames(files, t)))
    ensures Synced(WithChildrenAt(files, t, s), parentPath)
    decreases t
  {
    if t != [] {
      var f := files[t[0]];
      assert TrailNames(files, t)[1..] == TrailNames(f.children, t[1..]);
      WithChildrenAtSynced(f.children, f.path, t[1..], s);
    }
  }

  /** Grafting children with unique names keeps all sibling names unique. */
  lemma {:induction false} WithChildrenAtUnique(files: seq<Node>, t: seq<nat>, s: seq<Node>)
    requires ValidTrail(files, t) && UniqueNames(files) && UniqueNames(s)
    ensures UniqueNames(WithChildrenAt(files, t, s))
    decreases t
  {
    if t != [] {
      var f := files[t[0]];
      WithChildrenAtUnique(f.children, t[1..], s);
    }
  }

  /** Grafting well-named children keeps every name well formed. */
  lemma {:induction false} WithChildrenAtWellNamed(files: seq<Node>, t: seq<nat>, s: seq<Node>)
    requires ValidTrail(files, t) && WellNamed(files) && WellNamed(s)
    ensures WellNamed(WithChildrenAt(files, t, s))
    decreases t
  {
    if t != [] {
      var f := files[t[0]];
      WithChildrenAtWellNamed(f.children, t[1..], s);
    }
  }

  /** Taking one sibling out keeps the rest in sync, uniquely and well named. */
  lemma SpliceKeeps(s: seq<Node>, start: int, q: string)
    ensures Synced(s, q) ==> Synced(Splice(s, start), q)
    ensures UniqueNames(s) ==> UniqueNames(Splice(s, start))
    ensures WellNamed(s) ==> WellNamed(Splice(s, start))
  {
    var r := Splice(s, start);
    var k :| 0 <= k <= |s| && r == s[..k] + (if k < |s| then s[k + 1..] else []);
    assert forall j :: 0 <= j < |r| ==> r[j] == s[if j < k then j else j + 1];
  }

  /** The removal of a node that the path finds: the parent's children lose
      exactly that node, the others keep their order. */
  lemma RemoveFound(files: seq<Node>, pieces: seq<string>, t: seq<nat>)
    requires |pieces| >= 1 && Walk(files, Init(pieces)) == Ok(t)
    requires GetChildFileFromName(ChildrenAt(files, t), pieces[|pieces| - 1]).index >= 0
    ensures Remove(files, pieces).Ok? && ValidTrail(Remove(files, pieces).value, t)
    ensures var s := ChildrenAt(files, t);
      var i := GetChildFileFromName(s, pieces[|pieces| - 1]).index;
      var after := ChildrenAt(Remove(files, pieces).value, t);
      && after == s[..i] + s[i + 1..]
      && |after| == |s| - 1
  {
  }

  /** Removal touches nothing outside the parent folder of the removed node
      (whatever index the lookup gave): see `WithChildrenAtFrame`. */
  lemma RemoveFrame(files: seq<Node>, pieces: seq<string>, t: seq<nat>, u: seq<nat>, k: nat)
    requires |pieces| >= 1 && Walk(files, Init(pieces)) == Ok(t)
    requires ValidTrail(files, u) && !IsPrefix(t, u) && k < |ChildrenAt(files, u)|
    ensures Remove(files, pieces).Ok? && ValidTrail(Remove(files, pieces).value, u)
    ensures var before, after := ChildrenAt(files, u), ChildrenAt(Remove(files, pieces).value, u);
      && |after| == |before|
      && SameHead(after[k], before[k])
      && (!IsPrefix(u + [k], t) ==> after[k] == before[k])
  {
    var s := ChildrenAt(files, t);
    var index := GetChildFileFromName(s, pieces[|pieces| - 1]).index;
    WithChildrenAtFrame(files, t, Splice(s, index), u, k);
  }

  /** Stored paths are not recomputed by removal, and need not be: a tree in
      sync stays in sync, and unique, well-formed names stay so. */
  lemma RemoveKeepsInvariants(files: seq<Node>, pieces: seq<string>, t: seq<nat>, parentPath: string)
    requires |pieces| >= 1 && Walk(files, Init(pieces)) == Ok(t)
    ensures Remove(files, pieces).Ok?
    ensures Synced(files, parentPath) ==> Synced(Remove(files, pieces).value, parentPath)
    ensures UniqueNames(files) ==> UniqueNames(Remove(files, pieces).value)
    ensures WellNamed(files) ==> WellNamed(Remove(files, pieces).value)
  {
    var s := ChildrenAt(files, t);
    var index := GetChildFileFromName(s, pieces[|pieces| - 1]).index;
    var q := PathAlong(parentPath, TrailNames(files, t));
    SpliceKeeps(s, index, q);
    if Synced(files, parentPath) {
      SyncedAt(files, parentPath, t);
      WithChildrenAtSynced(files, parentPath, t, Splice(s, index));
    }
    if UniqueNames(files) {
      UniqueAt(files, t);
      WithChildrenAtUnique(files, t, Splice(s, index));
    }
    if WellNamed(files) {
      WellNamedAt(files, t);
      WithChildrenAtWellNamed(files, t, Splice(s, index));
    }
  }

  /** Replacing the children at the end of a walked trail leaves the walk
      as it was: the folders along the trail keep their names and kinds. */
  lemma {:induction false} WalkAfterGraft(files: seq<Node>, folders: seq<string>, t: seq<nat>, s: seq<Node>)
    requires Walk(files, folders) == Ok(t)
    ensures Walk(WithChildrenAt(files, t, s), folders) == Ok(t)
    decreases folders
  {
    if folders != [] {
      var l := GetChildFileFromName(files, folders[0]);
      var n := WithChildrenAt(files, t, s);
      var f := files[t[0]];
      assert t[0] == l.index && Walk(f.children, folders[1..]) == Ok(t[1..]);
      assert n == files[t[0] := f.(children := WithChildrenAt(f.children, t[1..], s))];
      LookupByNames(n, files, folders[0]);
      WalkAfterGraft(f.children, folders[1..], t[1..], s);
      WalkStep(n, folders);
      assert t == [t[0]] + t[1..];
    }
  }

  /** Once the node at a path is removed, the same path resolves to "not
      found", provided no other sibling of the removed node has its name. */
  lemma RemoveThenNotFound(files: seq<Node>, pieces: seq<string>, t: seq<nat>)
    requires |pieces| >= 1 && Walk(files, Init(pieces)) == Ok(t)
    requires GetChildFileFromName(ChildrenAt(files, t), pieces[|pieces| - 1]).index >= 0
    requires forall j ::
      (0 <= j < |ChildrenAt(files, t)| && j != GetChildFileFromName(ChildrenAt(files, t), pieces[|pieces| - 1]).index)
      ==> ChildrenAt(files, t)[j].name != pieces[|pieces| - 1]
    ensures Remove(files, pieces).Ok?
    ensures Resolve(Remove(files, pieces).value, pieces) == Ok(Lookup(-1, None))
  {
    var s := ChildrenAt(files, t);
    var name := pieces[|pieces| - 1];
    var i := GetChildFileFromName(s, name).index;
    var after := s[..i] + s[i + 1..];
    var n := Remove(files, pieces).value;
    RemoveFound(files, pieces, t);
    WalkAfterGraft(files, Init(pieces), t, Splice(s, i));
    assert ChildrenAt(n, t) == after;
    forall j | 0 <= j < |after|
      ensures after[j].name != name
    {
      assert after[j] == s[if j < i then j else j + 1];
    }
  }

  /** The defect as written: when the last segment names no sibling, the
      index is -1 and `splice(-1, 1)` removes the last sibling. */
  lemma RemoveMissingTakesLast(files: seq<Node>, pieces: seq<string>, t: seq<nat>)
    requires |pieces| >= 1 && Walk(files, Init(pieces)) == Ok(t)
    requires GetChildFileFromName(ChildrenAt(files, t), pieces[|pieces| - 1]).index == -1
    requires ChildrenAt(files, t) != []
    ensures Remove(files, pieces).Ok?
    ensures var s := ChildrenAt(files, t);
      ChildrenAt(Remove(files, pieces).value, t) == s[..|s| - 1]
  {
  }

  /** A concrete instance: removing "c.js" from the top level [a.js, b.js]
      leaves [a.js]. */
  lemma RemoveMissingExample()
    ensures Remove([File("a.js", "a.js"), File("b.js", "b.js")], Split("c.js")) == Ok([File("a.js", "a.js")])
  {
    SplitNoSep("c.js");
    var files := [File("a.js", "a.js"), File("b.js", "b.js")];
    assert files[0].name != "c.js" && files[1].name != "c.js";
    assert Init(["c.js"]) == [];
    assert GetChildFileFromName(files, "c.js").index == -1;
    assert Splice(files, -1) == [files[0]];
  }

  /** With the defect fixed, a path whose last segment names no sibling
      removes nothing. */
  lemma RemoveCheckedMissing(files: seq<Node>, pieces: seq<string>, t: seq<nat>)
    requires |pieces| >= 1 && Walk(files, Init(pieces)) == Ok(t)
    requires GetChildFileFromName(ChildrenAt(files, t), pieces[|pieces| - 1]).index == -1
    ensures RemoveChecked(files, pieces) == Err(PathNotFound)
    ensures Resolve(files, pieces) == Ok(Lookup(-1, None))
  {
  }
}
