/** Recomputing every node's path from its ancestors' names, as
    `assignFilePaths` does, and the path invariant it establishes. */
module PathSync {
  import opened Paths
  import opened FileTree

  /** Every node of `files` carries the path the prefixing rule gives it
      below `parentPath`, and every folder's children are in sync below the
      folder's own path. */
  ghost predicate Synced(files: seq<Node>, parentPath: string)
  {
    forall k :: 0 <= k < |files| ==>
      && files[k].path == ChildPath(parentPath, files[k].name)
      && (files[k].Folder? ==> Synced(files[k].children, files[k].path))
  }

  /** `a` and `b` are the same tree up to their `path` attributes: the same
      names, the same kinds and children sequences of the same lengths,
      in the same order. */
  ghost predicate SameShape(a: seq<Node>, b: seq<Node>)
  {
    && |a| == |b|
    && forall k :: 0 <= k < |a| ==>
         && a[k].name == b[k].name
         && a[k].Folder? == b[k].Folder?
         && (a[k].Folder? ==> SameShape(a[k].children, b[k].children))
  }

  /** Assigns `path` on every node of `files`, children included, below
      `parentPath` ("" for the top level). Only the paths change, and the
      result is in sync. */
  method AssignFilePaths(files: seq<Node>, parentPath: string) returns (r: seq<Node>)
    ensures SameShape(r, files)
    ensures Synced(r, parentPath)
    decreases files
  {
    r := files;
    var i := 0;
    while i < |files|
      invariant 0 <= i <= |files| && |r| == |files|
      invariant forall k :: i <= k < |files| ==> r[k] == files[k]
      invariant forall k :: 0 <= k < i ==>
        && r[k].name == files[k].name
        && r[k].Folder? == files[k].Folder?
        && (r[k].Folder? ==> SameShape(r[k].children, files[k].children))
        && r[k].path == ChildPath(parentPath, r[k].name)
        && (r[k].Folder? ==> Synced(r[k].children, r[k].path))
    {
      var file := r[i];
      var path := ChildPath(parentPath, file.name);
      file := file.(path := path);
      if file.Folder? {
        var children := AssignFilePaths(file.children, path);
        file := file.(children := children);
      }
      r := r[i := file];
      i := i + 1;
    }
  }

  /** Two trees of the same shape that are both in sync below the same
      prefix are equal: the paths are determined by names and shape alone,
      whatever paths were stored before. */
  lemma {:induction false} SyncedUnique(a: seq<Node>, b: seq<Node>, parentPath: string)
    requires SameShape(a, b)
    requires Synced(a, parentPath) && Synced(b, parentPath)
    ensures a == b
    decreases a
  {
    forall k | 0 <= k < |a|
      ensures a[k] == b[k]
    {
      if a[k].Folder? {
        SyncedUnique(a[k].children, b[k].children, a[k].path);
      }
    }
  }

  /** Being of the same shape is an equivalence. */
  lemma {:induction false} SameShapeRefl(a: seq<Node>)
    ensures SameShape(a, a)
    decreases a
  {
    forall k | 0 <= k < |a| && a[k].Folder?
      ensures SameShape(a[k].children, a[k].children)
    {
      SameShapeRefl(a[k].children);
    }
  }

  lemma {:induction false} SameShapeSym(a: seq<Node>, b: seq<Node>)
    requires SameShape(a, b)
    ensures SameShape(b, a)
    decreases a
  {
    forall k | 0 <= k < |a| && a[k].Folder?
      ensures SameShape(b[k].children, a[k].children)
    {
      SameShapeSym(a[k].children, b[k].children);
    }
  }

  /** Only paths differ between trees of the same shape, so the naming
      hypotheses of the resolver hold of one exactly when of the other. */
  lemma {:induction false} SameShapeKeeps(a: seq<Node>, b: seq<Node>)
    requires SameShape(a, b)
    ensures WellNamed(a) <==> WellNamed(b)
    ensures UniqueNames(a) <==> UniqueNames(b)
    decreases a
  {
    forall k | 0 <= k < |a| && a[k].Folder?
      ensures WellNamed(a[k].children) <==> WellNamed(b[k].children)
      ensures UniqueNames(a[k].children) <==> UniqueNames(b[k].children)
    {
      SameShapeKeeps(a[k].children, b[k].children);
    }
  }

  /** A trail of one tree is a trail of every tree of the same shape, through
      folders of the same names, to children of the same shape. */
  lemma {:induction false} SameShapeTrail(a: seq<Node>, b: seq<Node>, t: seq<nat>)
    requires SameShape(a, b) && ValidTrail(a, t)
    ensures ValidTrail(b, t) && TrailNames(b, t) == TrailNames(a, t)
    ensures SameShape(ChildrenAt(a, t), ChildrenAt(b, t))
    decreases t
  {
    if t != [] {
      SameShapeTrail(a[t[0]].children, b[t[0]].children, t[1..]);
    }
  }

  /** A tree already in sync is left as it is: assigning paths again is
      idempotent. */
  lemma AssignIdempotent(files: seq<Node>, r: seq<Node>, parentPath: string)
    requires Synced(files, parentPath)
    requires SameShape(r, files) && Synced(r, parentPath)
    ensures r == files
  {
    SameShapeRefl(files);
    SyncedUnique(r, files, parentPath);
  }

  /** In a tree in sync below `parentPath`, the children at the end of a
      trail are in sync below the path reached along that trail. */
  lemma {:induction false} SyncedAt(files: seq<Node>, parentPath: string, t: seq<nat>)
    requires Synced(files, parentPath) && ValidTrail(files, t)
    ensures Synced(ChildrenAt(files, t), PathAlong(parentPath, TrailNames(files, t)))
    decreases t
  {
    if t != [] {
      var f := files[t[0]];
      SyncedAt(f.children, f.path, t[1..]);
      var rest := TrailNames(f.children, t[1..]);
      assert TrailNames(files, t) == [f.name] + rest;
      assert TrailNames(files, t)[1..] == rest;
    }
  }

  /** The path invariant: in a tree in sync from the root, a node's path is
      the names from the top level down to it, itself included, and, when
      the top-level name is non-empty, those names joined with "/". */
  lemma PathInvariant(files: seq<Node>, t: seq<nat>, i: nat)
    requires Synced(files, "") && ValidTrail(files, t) && i < |ChildrenAt(files, t)|
    ensures ChildrenAt(files, t)[i].path == PathAlong("", TrailNames(files, t) + [ChildrenAt(files, t)[i].name])
    ensures var names := TrailNames(files, t) + [ChildrenAt(files, t)[i].name];
            names[0] != "" ==> ChildrenAt(files, t)[i].path == Join(names)
  {
    var names := TrailNames(files, t) + [ChildrenAt(files, t)[i].name];
    SyncedAt(files, "", t);
    PathAlongSnoc("", TrailNames(files, t), ChildrenAt(files, t)[i].name);
    if names[0] != "" {
      PathAlongRoot(names);
    }
  }
}
