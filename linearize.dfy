/** Flattening the tree to its files, as `linearizeFiles` does with a
    recursive `reduce`, and the depth-first reference it is proved against. */
module Linearize {
  import opened FileTree

  /** `files.reduce(step, list)`: a folder contributes the flattening of
      its children, a file contributes itself. */
  function ReduceToLinearFiles(list: seq<Node>, files: seq<Node>): (r: seq<Node>)
    ensures |r| >= |list| && r[..|list|] == list
    ensures forall k :: |list| <= k < |r| ==> r[k].File?
    ensures FileCount(files) == 0 ==> r == list
    decreases files
  {
    if files == [] then list
    else
      var currentFile := files[0];
      if currentFile.Folder? then
        ReduceToLinearFiles(list + ReduceToLinearFiles([], currentFile.children), files[1..])
      else
        ReduceToLinearFiles(list + [currentFile], files[1..])
  }

  /** The files of the tree, folders left out. */
  function LinearizeFiles(files: seq<Node>): (r: seq<Node>)
    ensures forall k :: 0 <= k < |r| ==> r[k].File?
    ensures FileCount(files) == 0 ==> r == []
  {
    ReduceToLinearFiles([], files)
  }

  /** Every node of the tree in depth-first, left-to-right pre-order. */
  function Preorder(files: seq<Node>): seq<Node>
    decreases files
  {
    if files == [] then []
    else
      [files[0]]
      + (if files[0].Folder? then Preorder(files[0].children) else [])
      + Preorder(files[1..])
  }

  /** The file nodes of `s`, in their order in `s`. */
  function OnlyFiles(s: seq<Node>): seq<Node>
  {
    if s == [] then [] else (if s[0].File? then [s[0]] else []) + OnlyFiles(s[1..])
  }

  /** The number of file nodes in the tree. */
  function FileCount(files: seq<Node>): nat
    decreases files
  {
    if files == [] then 0
    else (if files[0].Folder? then FileCount(files[0].children) else 1) + FileCount(files[1..])
  }

  lemma {:induction false} OnlyFilesAppend(a: seq<Node>, b: seq<Node>)
    ensures OnlyFiles(a + b) == OnlyFiles(a) + OnlyFiles(b)
  {
    if a != [] {
      OnlyFilesAppend(a[1..], b);
      assert (a + b)[1..] == a[1..] + b;
    } else {
      assert a + b == b;
    }
  }

  lemma {:induction false} PreorderAppend(a: seq<Node>, b: seq<Node>)
    ensures Preorder(a + b) == Preorder(a) + Preorder(b)
  {
    if a != [] {
      PreorderAppend(a[1..], b);
      assert (a + b)[1..] == a[1..] + b;
    } else {
      assert a + b == b;
    }
  }

  /** Folding from an accumulated `list` appends the depth-first files. */
  lemma {:induction false} ReduceIsPreorderFiles(list: seq<Node>, files: seq<Node>)
    ensures ReduceToLinearFiles(list, files) == list + OnlyFiles(Preorder(files))
    decreases files
  {
    if files != [] {
      var f, rest := files[0], files[1..];
      var own := if f.Folder? then Preorder(f.children) else [];
      var step := if f.Folder? then ReduceToLinearFiles([], f.children) else [f];
      assert Preorder(files) == [f] + own + Preorder(rest);
      assert ReduceToLinearFiles(list, files) == ReduceToLinearFiles(list + step, rest);
      if f.Folder? {
        ReduceIsPreorderFiles([], f.children);
      }
      assert step == OnlyFiles([f] + own) by {
        OnlyFilesAppend([f], own);
      }
      ReduceIsPreorderFiles(list + step, rest);
      OnlyFilesAppend([f] + own, Preorder(rest));
    }
  }

  /** The flattening is exactly the files of the depth-first traversal, in
      that order; a node is in it iff it is a file of the traversal. */
  lemma LinearizeFilesOrder(files: seq<Node>)
    ensures LinearizeFiles(files) == OnlyFiles(Preorder(files))
    ensures forall x :: x in LinearizeFiles(files) <==> x.File? && x in Preorder(files)
  {
    ReduceIsPreorderFiles([], files);
    OnlyFilesMembers(Preorder(files));
  }

  lemma {:induction false} OnlyFilesMembers(s: seq<Node>)
    ensures forall x :: x in OnlyFiles(s) <==> x.File? && x in s
  {
    if s != [] {
      OnlyFilesMembers(s[1..]);
      assert s == [s[0]] + s[1..];
    }
  }

  lemma {:induction false} OnlyFilesCount(files: seq<Node>)
    ensures |OnlyFiles(Preorder(files))| == FileCount(files)
    decreases files
  {
    if files != [] {
      var f := files[0];
      var own := if f.Folder? then Preorder(f.children) else [];
      OnlyFilesAppend([f] + own, Preorder(files[1..]));
      OnlyFilesAppend([f], own);
      if f.Folder? {
        OnlyFilesCount(f.children);
      }
      OnlyFilesCount(files[1..]);
    }
  }

  /** The flattening holds only files, as many as the tree has; the empty
      tree flattens to nothing. */
  lemma LinearizeFilesCount(files: seq<Node>)
    ensures |LinearizeFiles(files)| == FileCount(files)
    ensures forall k :: 0 <= k < |LinearizeFiles(files)| ==> LinearizeFiles(files)[k].File?
    ensures files == [] ==> LinearizeFiles(files) == []
  {
    LinearizeFilesOrder(files);
    OnlyFilesCount(files);
  }

  /** Flattening distributes over concatenation of forests. */
  lemma LinearizeFilesAppend(a: seq<Node>, b: seq<Node>)
    ensures LinearizeFiles(a + b) == LinearizeFiles(a) + LinearizeFiles(b)
  {
    LinearizeFilesOrder(a);
    LinearizeFilesOrder(b);
    LinearizeFilesOrder(a + b);
    PreorderAppend(a, b);
    OnlyFilesAppend(Preorder(a), Preorder(b));
  }

  /** Each top-level node is in the traversal, and so is everything in the
      traversal of a top-level folder's children. */
  lemma {:induction false} PreorderContains(files: seq<Node>, j: nat)
    requires j < |files|
    ensures files[j] in Preorder(files)
    ensures files[j].Folder? ==> forall x :: x in Preorder(files[j].children) ==> x in Preorder(files)
    decreases j
  {
    var own := if files[0].Folder? then Preorder(files[0].children) else [];
    assert Preorder(files) == [files[0]] + own + Preorder(files[1..]);
    if j > 0 {
      PreorderContains(files[1..], j - 1);
    }
  }

  /** Every node of the tree, at any depth, is in the traversal; so every
      file of the tree is in the flattening (completeness). */
  lemma {:induction false} ReachableInLinearization(files: seq<Node>, t: seq<nat>, i: nat)
    requires ValidTrail(files, t) && i < |ChildrenAt(files, t)|
    ensures ChildrenAt(files, t)[i] in Preorder(files)
    ensures ChildrenAt(files, t)[i].File? ==> ChildrenAt(files, t)[i] in LinearizeFiles(files)
    decreases t
  {
    if t == [] {
      PreorderContains(files, i);
    } else {
      ReachableInLinearization(files[t[0]].children, t[1..], i);
      PreorderContains(files, t[0]);
    }
    LinearizeFilesOrder(files);
  }
}
