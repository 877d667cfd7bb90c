/** Slash-separated paths: splitting a path into its segments the way
    JavaScript's `path.split('/')` does, joining segments back, and the
    prefixing rule `parentPath ? parentPath + "/" + name : name` that
    builds a node's path from its parent's. */
module Paths {

  const Sep: char := '/'

  /** The segments of `s` between separators, as `s.split('/')`: there is
      always at least one segment, and empty segments are kept ("" gives
      [""], "a//b" gives ["a", "", "b"]). No segment contains a separator,
      and joining the segments gives back `s`. */
  function Split(s: string): (r: seq<string>)
    ensures |r| >= 1
    ensures forall k :: 0 <= k < |r| ==> Sep !in r[k]
    ensures Join(r) == s
  {
    if s == [] then [""]
    else
      var rest := Split(s[1..]);
      if s[0] == Sep then
        assert s == [Sep] + s[1..];
        [""] + rest
      else
        assert s == [s[0]] + rest[0] + (if |rest| == 1 then "" else [Sep] + Join(rest[1..]));
        [[s[0]] + rest[0]] + rest[1..]
  }

  /** The segments joined with separators; the empty sequence joins to "". */
  function Join(xs: seq<string>): string
  {
    if |xs| == 0 then ""
    else if |xs| == 1 then xs[0]
    else xs[0] + [Sep] + Join(xs[1..])
  }

  /** The path of a node called `name` whose parent's path is `parentPath`;
      the empty parent path (JavaScript's falsy "") stands for the root. */
  function ChildPath(parentPath: string, name: string): (r: string)
    ensures parentPath == "" ==> r == name
    ensures parentPath != "" ==> |r| > |parentPath| && r[..|parentPath|] == parentPath && r[|parentPath|] == Sep
    ensures parentPath != "" ==> r[|parentPath| + 1..] == name
  {
    if parentPath == "" then name else parentPath + [Sep] + name
  }

  /** The path reached from `parentPath` by descending through the nodes
      called `names`, one `ChildPath` step per name. */
  function PathAlong(parentPath: string, names: seq<string>): string
    decreases names
  {
    if names == [] then parentPath
    else PathAlong(ChildPath(parentPath, names[0]), names[1..])
  }

  /** Splitting undoes joining, as long as no segment contains a separator. */
  lemma {:induction false} SplitJoin(xs: seq<string>)
    requires |xs| >= 1
    requires forall k :: 0 <= k < |xs| ==> Sep !in xs[k]
    ensures Split(Join(xs)) == xs
  {
    if |xs| == 1 {
      SplitNoSep(xs[0]);
    } else {
      SplitJoin(xs[1..]);
      SplitAfter(xs[0], Join(xs[1..]));
      assert xs == [xs[0]] + xs[1..];
    }
  }

  /** A string without separators is a single segment. */
  lemma {:induction false} SplitNoSep(x: string)
    requires Sep !in x
    ensures Split(x) == [x]
  {
    if x != [] {
      SplitNoSep(x[1..]);
      assert x == [x[0]] + x[1..];
    }
  }

  /** A separator after a separator-free prefix ends the first segment. */
  lemma {:induction false} SplitAfter(x: string, tail: string)
    requires Sep !in x
    ensures Split(x + [Sep] + tail) == [x] + Split(tail)
  {
    var s := x + [Sep] + tail;
    if x == [] {
      assert s[1..] == tail;
    } else {
      SplitAfter(x[1..], tail);
      assert s[1..] == x[1..] + [Sep] + tail;
      assert x == [x[0]] + x[1..];
    }
  }

  /** Once a path is non-empty, each further name adds a separator and the
      name: the prefixing rule is then plain joining. */
  lemma {:induction false} PathAlongNonEmpty(q: string, names: seq<string>)
    requires q != ""
    ensures PathAlong(q, names) == if names == [] then q else q + [Sep] + Join(names)
    decreases names
  {
    if names != [] {
      var q' := q + [Sep] + names[0];
      PathAlongNonEmpty(q', names[1..]);
      if |names| > 1 {
        assert q' + [Sep] + Join(names[1..]) == q + [Sep] + Join(names);
      }
    }
  }

  /** From the root, a path whose first name is non-empty is the names
      joined with separators. */
  lemma PathAlongRoot(names: seq<string>)
    requires |names| >= 1 && names[0] != ""
    ensures PathAlong("", names) == Join(names)
  {
    PathAlongNonEmpty(names[0], names[1..]);
  }

  /** Descending through one more name applies the prefixing rule once more. */
  lemma {:induction false} PathAlongSnoc(parentPath: string, names: seq<string>, name: string)
    ensures PathAlong(parentPath, names + [name]) == ChildPath(PathAlong(parentPath, names), name)
    decreases names
  {
    if names == [] {
      assert [name][1..] == [];
    } else {
      PathAlongSnoc(ChildPath(parentPath, names[0]), names[1..], name);
      assert (names + [name])[1..] == names[1..] + [name];
    }
  }

  /** A path built from the root out of non-empty, separator-free names
      splits back into exactly those names. */
  lemma PathAlongSplit(names: seq<string>)
    requires |names| >= 1 && names[0] != ""
    requires forall k :: 0 <= k < |names| ==> Sep !in names[k]
    ensures Split(PathAlong("", names)) == names
  {
    PathAlongRoot(names);
    SplitJoin(names);
  }
}
