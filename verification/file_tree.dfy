/** A directory tree as `File.walkTopDown()` lists it, and the walk itself
    with its `onEnter` pruning, shared by `S3APIWrapper.uploadFolder` and
    `FolderZipper.pack`. */
module FileTree {
  import opened Common

  /** What a directory listing can hold. `Special` is anything that is neither
      a directory nor a regular file (a device, a socket, a dangling link). */
  datatype Node =
    | RegularFile(name: string)
    | Special(name: string)
    | Directory(name: string, children: seq<Node>)

  /** An element the walk produces: the node and its path relative to the
      start of the walk, as name components. */
  datatype Visit = Visit(rel: seq<string>, node: Node)

  /** The walk below a node already reached at `rel`: a directory is first
      offered to `enter`; when it refuses, neither the directory nor anything
      under it is produced. Otherwise the directory comes first, then its
      children in listing order, each walked in full before the next. */
  function Walk(node: Node, rel: seq<string>, enter: string -> bool): (r: seq<Visit>)
    ensures r == [] <==> node.Directory? && !enter(node.name)
    ensures r != [] ==> r[0] == Visit(rel, node)
    decreases node
  {
    match node
    case Directory(n, children) =>
      if enter(n) then [Visit(rel, node)] + WalkChildren(children, rel, enter) else []
    case _ => [Visit(rel, node)]
  }

  function WalkChildren(children: seq<Node>, rel: seq<string>, enter: string -> bool): seq<Visit>
    decreases children
  {
    if children == [] then []
    else Walk(children[0], rel + [children[0].name], enter) + WalkChildren(children[1..], rel, enter)
  }

  /** `start.walkTopDown().onEnter(enter)`: a start that is a regular file
      yields itself, a start that is neither a file nor a directory yields
      nothing, and a start directory is offered to `enter` like any other. */
  function WalkTopDown(start: Node, enter: string -> bool): (r: seq<Visit>)
    ensures r == [] <==> start.Special? || (start.Directory? && !enter(start.name))
    ensures r != [] ==> r[0] == Visit([], start)
  {
    if start.Special? then [] else Walk(start, [], enter)
  }

  /** The first child called `name`. */
  function Child(children: seq<Node>, name: string): (r: Option<Node>)
    ensures r.Some? ==> r.value in children && r.value.name == name
    ensures r.None? <==> forall i :: 0 <= i < |children| ==> children[i].name != name
  {
    if children == [] then None
    else if children[0].name == name then Some(children[0])
    else Child(children[1..], name)
  }

  /** The node at a relative path. */
  function Lookup(node: Node, rel: seq<string>): Option<Node>
    decreases node
  {
    if rel == [] then Some(node)
    else if !node.Directory? then None
    else match Child(node.children, rel[0])
      case None => None
      case Some(c) => Lookup(c, rel[1..])
  }

  /** The walk reaches the node at `rel`: every directory on the way,
      the node itself included when it is one, is accepted by `enter`. */
  predicate Reachable(node: Node, rel: seq<string>, enter: string -> bool)
    decreases node
  {
    if rel == [] then !node.Directory? || enter(node.name)
    else
      node.Directory? && enter(node.name) &&
      (match Child(node.children, rel[0])
       case None => false
       case Some(c) => Reachable(c, rel[1..], enter))
  }

  /** Directory listings never hold two entries of one name. */
  predicate UniqueNames(node: Node)
    decreases node
  {
    match node
    case Directory(_, children) =>
      (forall i, j :: 0 <= i < j < |children| ==> children[i].name != children[j].name) &&
      (forall i :: 0 <= i < |children| ==> UniqueNames(children[i]))
    case _ => true
  }

  /** The host name separator joining the components of a relative path, as
      `File.path` writes it. */
  function Join(parts: seq<string>, sep: char): string
  {
    if parts == [] then ""
    else if |parts| == 1 then parts[0]
    else parts[0] + [sep] + Join(parts[1..], sep)
  }

  /** `s.replace(from, to)` on characters. */
  function Replace(s: string, from: char, to: char): (r: string)
    ensures |r| == |s|
    ensures forall i :: 0 <= i < |s| ==> r[i] == if s[i] == from then to else s[i]
  {
    if s == [] then [] else [if s[0] == from then to else s[0]] + Replace(s[1..], from, to)
  }

  /** Every visit of the walk below a node lies at a path that extends the
      node's own path. */
  predicate Extends(v: Visit, rel: seq<string>)
  {
    |rel| <= |v.rel| && v.rel[..|rel|] == rel
  }

  /** Every name below `node` (its own excluded) satisfies `ok`. */
  predicate NamesBelow(node: Node, ok: string -> bool)
    decreases node
  {
    match node
    case Directory(_, children) =>
      forall i :: 0 <= i < |children| ==> ok(children[i].name) && NamesBelow(children[i], ok)
    case _ => true
  }

  /** No two visits share a relative path. */
  predicate DistinctPaths(visits: seq<Visit>)
  {
    forall i, j :: 0 <= i < j < |visits| ==> visits[i].rel != visits[j].rel
  }

  lemma {:induction false} WalkChildrenIndex(children: seq<Node>, rel: seq<string>, enter: string -> bool, v: Visit)
    requires v in WalkChildren(children, rel, enter)
    ensures exists i :: 0 <= i < |children| && v in Walk(children[i], rel + [children[i].name], enter)
  {
    if v !in Walk(children[0], rel + [children[0].name], enter) {
      WalkChildrenIndex(children[1..], rel, enter, v);
      var i :| 0 <= i < |children[1..]| && v in Walk(children[1..][i], rel + [children[1..][i].name], enter);
      assert children[1..][i] == children[i + 1];
    }
  }

  lemma {:induction false} WalkChildrenContains(children: seq<Node>, rel: seq<string>, enter: string -> bool, i: nat, v: Visit)
    requires i < |children| && v in Walk(children[i], rel + [children[i].name], enter)
    ensures v in WalkChildren(children, rel, enter)
  {
    if i > 0 {
      assert children[1..][i - 1] == children[i];
      WalkChildrenContains(children[1..], rel, enter, i - 1, v);
    }
  }

  /** Every visit extends the path it was reached by. */
  lemma {:induction false} WalkExtends(node: Node, rel: seq<string>, enter: string -> bool)
    ensures forall v :: v in Walk(node, rel, enter) ==> Extends(v, rel)
    decreases node
  {
    forall v | v in Walk(node, rel, enter)
      ensures Extends(v, rel)
    {
      if node.Directory? && v != Visit(rel, node) {
        WalkChildrenIndex(node.children, rel, enter, v);
        var i :| 0 <= i < |node.children| && v in Walk(node.children[i], rel + [node.children[i].name], enter);
        WalkExtends(node.children[i], rel + [node.children[i].name], enter);
        assert v.rel[..|rel|] == v.rel[..|rel| + 1][..|rel|];
      }
    }
  }

  /** Below a node, the names on every visit's path are names below it. */
  lemma {:induction false} WalkNames(node: Node, rel: seq<string>, enter: string -> bool, ok: string -> bool)
    requires NamesBelow(node, ok)
    ensures forall v :: v in Walk(node, rel, enter) ==>
      Extends(v, rel) && forall k :: |rel| <= k < |v.rel| ==> ok(v.rel[k])
    decreases node
  {
    WalkExtends(node, rel, enter);
    forall v | v in Walk(node, rel, enter)
      ensures forall k :: |rel| <= k < |v.rel| ==> ok(v.rel[k])
    {
      if node.Directory? && v != Visit(rel, node) {
        WalkChildrenIndex(node.children, rel, enter, v);
        var i :| 0 <= i < |node.children| && v in Walk(node.children[i], rel + [node.children[i].name], enter);
        var c := node.children[i];
        WalkNames(c, rel + [c.name], enter, ok);
        assert v.rel[|rel|] == (rel + [c.name])[|rel|];
      }
    }
  }

  lemma ChildOfUnique(children: seq<Node>, i: nat)
    requires i < |children|
    requires forall a, b :: 0 <= a < b < |children| ==> children[a].name != children[b].name
    ensures Child(children, children[i].name) == Some(children[i])
  {
    if i > 0 {
      assert children[0].name != children[i].name;
      assert children[1..][i - 1] == children[i];
      ChildOfUnique(children[1..], i - 1);
    }
  }

  /** Soundness of the walk: each visit is the node found at its path, and
      the walk was allowed to reach it. */
  lemma {:induction false} WalkSound(node: Node, rel: seq<string>, enter: string -> bool)
    requires UniqueNames(node)
    ensures forall v :: v in Walk(node, rel, enter) ==>
      Extends(v, rel) && Lookup(node, v.rel[|rel|..]) == Some(v.node) && Reachable(node, v.rel[|rel|..], enter)
    decreases node
  {
    WalkExtends(node, rel, enter);
    forall v | v in Walk(node, rel, enter)
      ensures Lookup(node, v.rel[|rel|..]) == Some(v.node) && Reachable(node, v.rel[|rel|..], enter)
    {
      if node.Directory? && v != Visit(rel, node) {
        WalkChildrenIndex(node.children, rel, enter, v);
        var i :| 0 <= i < |node.children| && v in Walk(node.children[i], rel + [node.children[i].name], enter);
        var c := node.children[i];
        WalkSound(c, rel + [c.name], enter);
        assert enter(node.name);
        WalkSoundChild(node, rel, enter, v, i);
      }
    }
  }

  /** The step of `WalkSound` through the `i`th child of an entered
      directory: a visit found at its path below the child is found at its
      path below the directory. */
  lemma WalkSoundChild(node: Node, rel: seq<string>, enter: string -> bool, v: Visit, i: nat)
    requires UniqueNames(node) && node.Directory? && enter(node.name) && i < |node.children|
    requires var c := node.children[i];
      Extends(v, rel + [c.name]) &&
      Lookup(c, v.rel[|rel| + 1..]) == Some(v.node) && Reachable(c, v.rel[|rel| + 1..], enter)
    ensures Lookup(node, v.rel[|rel|..]) == Some(v.node) && Reachable(node, v.rel[|rel|..], enter)
  {
    var c := node.children[i];
    ChildOfUnique(node.children, i);
    var tail := v.rel[|rel|..];
    assert tail[0] == (rel + [c.name])[|rel|] == c.name;
    assert tail[1..] == v.rel[|rel| + 1..];
    DescendStep(node, tail, v.node, enter);
  }

  /** A path into an entered directory leads where the rest of the path
      leads from the child it names. */
  lemma DescendStep(node: Node, tail: seq<string>, target: Node, enter: string -> bool)
    requires node.Directory? && enter(node.name) && tail != []
    requires Child(node.children, tail[0]).Some?
    requires var c := Child(node.children, tail[0]).value;
      Lookup(c, tail[1..]) == Some(target) && Reachable(c, tail[1..], enter)
    ensures Lookup(node, tail) == Some(target) && Reachable(node, tail, enter)
  {
  }

  /** Completeness of the walk: every node the walk is allowed to reach is
      visited, at its own path. */
  lemma {:induction false} WalkComplete(node: Node, rel: seq<string>, path: seq<string>, enter: string -> bool)
    requires Lookup(node, path).Some? && Reachable(node, path, enter)
    ensures Visit(rel + path, Lookup(node, path).value) in Walk(node, rel, enter)
    decreases node
  {
    if path == [] {
      assert rel + path == rel;
    } else {
      var c := Child(node.children, path[0]).value;
      var i :| 0 <= i < |node.children| && node.children[i] == c;
      WalkComplete(c, rel + [c.name], path[1..], enter);
      assert rel + [c.name] + path[1..] == rel + path;
      WalkChildrenContains(node.children, rel, enter, i, Visit(rel + path, Lookup(node, path).value));
    }
  }

  lemma DistinctAppend(a: seq<Visit>, b: seq<Visit>)
    requires DistinctPaths(a) && DistinctPaths(b)
    requires forall x, y :: x in a && y in b ==> x.rel != y.rel
    ensures DistinctPaths(a + b)
  {
    forall i, j | 0 <= i < j < |a + b|
      ensures (a + b)[i].rel != (a + b)[j].rel
    {
      if j >= |a| && i < |a| {
        assert (a + b)[i] in a && (a + b)[j] in b;
      }
    }
  }

  /** In a tree with unique names no path is visited twice. */
  lemma {:induction false} WalkDistinct(node: Node, rel: seq<string>, enter: string -> bool)
    requires UniqueNames(node)
    ensures DistinctPaths(Walk(node, rel, enter))
    decreases node, 1
  {
    if node.Directory? && enter(node.name) {
      WalkChildrenDistinct(node.children, rel, enter, 0);
      WalkChildrenExtend(node.children, rel, enter);
      assert node.children[0..] == node.children;
      DistinctAppend([Visit(rel, node)], WalkChildren(node.children, rel, enter));
    }
  }

  lemma WalkChildrenExtend(children: seq<Node>, rel: seq<string>, enter: string -> bool)
    ensures forall v :: v in WalkChildren(children, rel, enter) ==>
      |v.rel| > |rel| && v.rel[..|rel|] == rel
  {
    forall v | v in WalkChildren(children, rel, enter)
      ensures |v.rel| > |rel| && v.rel[..|rel|] == rel
    {
      WalkChildrenIndex(children, rel, enter, v);
      var i :| 0 <= i < |children| && v in Walk(children[i], rel + [children[i].name], enter);
      WalkExtends(children[i], rel + [children[i].name], enter);
      assert v.rel[..|rel|] == v.rel[..|rel| + 1][..|rel|];
    }
  }

  /** The walks of the children from index `k` on visit distinct paths, each
      path carrying its child's name right after `rel`. */
  lemma {:induction false} WalkChildrenDistinct(children: seq<Node>, rel: seq<string>, enter: string -> bool, k: nat)
    requires k <= |children|
    requires forall a, b :: 0 <= a < b < |children| ==> children[a].name != children[b].name
    requires forall a :: 0 <= a < |children| ==> UniqueNames(children[a])
    ensures DistinctPaths(WalkChildren(children[k..], rel, enter))
    ensures forall v :: v in WalkChildren(children[k..], rel, enter) ==>
      |v.rel| > |rel| && exists a :: k <= a < |children| && v.rel[|rel|] == children[a].name
    decreases children, |children| - k
  {
    if k < |children| {
      var c := children[k];
      var rest := children[k..][1..];
      assert rest == children[k + 1..];
      WalkChildrenDistinct(children, rel, enter, k + 1);
      WalkDistinct(c, rel + [c.name], enter);
      WalkExtends(c, rel + [c.name], enter);
      forall x | x in Walk(c, rel + [c.name], enter)
        ensures |x.rel| > |rel| && x.rel[|rel|] == c.name
      {
        assert x.rel[|rel|] == x.rel[..|rel| + 1][|rel|];
      }
      forall x, y | x in Walk(c, rel + [c.name], enter) && y in WalkChildren(rest, rel, enter)
        ensures x.rel != y.rel
      {
        var a :| k + 1 <= a < |children| && y.rel[|rel|] == children[a].name;
        assert children[k].name != children[a].name;
      }
      DistinctAppend(Walk(c, rel + [c.name], enter), WalkChildren(rest, rel, enter));
    }
  }

  predicate PlainName(name: string, sep: char)
  {
    name != "" && sep !in name
  }

  /** Joining names that are non-empty and free of the separator loses
      nothing: two such paths with one text are one path. */
  lemma {:induction false} JoinInjective(x: seq<string>, y: seq<string>, sep: char)
    requires forall i :: 0 <= i < |x| ==> PlainName(x[i], sep)
    requires forall i :: 0 <= i < |y| ==> PlainName(y[i], sep)
    requires Join(x, sep) == Join(y, sep)
    ensures x == y
    decreases |x| + |y|
  {
    JoinShape(x, sep);
    JoinShape(y, sep);
    if |x| >= 2 && |y| >= 2 {
      var a, b := x[0], y[0];
      assert |a| == |b|;
      assert a == Join(x, sep)[..|a|] == Join(y, sep)[..|b|] == b;
      assert Join(x[1..], sep) == Join(x, sep)[|a| + 1..];
      assert Join(y[1..], sep) == Join(y, sep)[|b| + 1..];
      JoinInjective(x[1..], y[1..], sep);
      assert x == [a] + x[1..] && y == [b] + y[1..];
    }
  }

  /** The text of an empty path is empty, one name is itself, and two or
      more names contain the separator. */
  lemma JoinShape(x: seq<string>, sep: char)
    requires forall i :: 0 <= i < |x| ==> PlainName(x[i], sep)
    ensures x == [] <==> Join(x, sep) == ""
    ensures |x| == 1 ==> sep !in Join(x, sep)
    ensures |x| >= 2 ==> sep in Join(x, sep) && Join(x, sep)[|x[0]|] == sep
  {
    if |x| >= 2 {
      assert Join(x, sep)[|x[0]|] == sep;
    }
  }

  lemma ReplaceAppend(a: string, b: string, from: char, to: char)
    ensures Replace(a + b, from, to) == Replace(a, from, to) + Replace(b, from, to)
  {
  }

  /** Replacing the separator, or a character no name holds, by `to` gives
      the path joined with `to`. */
  lemma {:induction false} ReplaceJoin(x: seq<string>, sep: char, from: char, to: char)
    requires sep == from || sep == to
    requires forall i :: 0 <= i < |x| ==> from !in x[i]
    ensures Replace(Join(x, sep), from, to) == Join(x, to)
  {
    if |x| >= 1 {
      assert Replace(x[0], from, to) == x[0];
    }
    if |x| >= 2 {
      ReplaceJoin(x[1..], sep, from, to);
      assert Join(x, sep) == x[0] + [sep] + Join(x[1..], sep);
      ReplaceAppend(x[0] + [sep], Join(x[1..], sep), from, to);
      ReplaceAppend(x[0], [sep], from, to);
    }
  }

  /** A path the walk reaches passes only through directories `enter`
      accepts: every directory on a prefix of it was entered. */
  lemma {:induction false} ReachableEntersPrefix(node: Node, path: seq<string>, prefix: seq<string>, enter: string -> bool)
    requires Reachable(node, path, enter)
    requires |prefix| <= |path| && path[..|prefix|] == prefix
    requires Lookup(node, prefix).Some? && Lookup(node, prefix).value.Directory?
    ensures enter(Lookup(node, prefix).value.name)
    decreases node
  {
    if prefix != [] {
      var c := Child(node.children, prefix[0]).value;
      assert path[0] == prefix[0];
      assert path[1..][..|prefix| - 1] == prefix[1..];
      ReachableEntersPrefix(c, path[1..], prefix[1..], enter);
    }
  }

  /** A path the walk reaches names only entered directories: the start, when
      it is a directory, and every component but the last. */
  lemma {:induction false} ReachableEntered(node: Node, path: seq<string>, enter: string -> bool)
    requires Reachable(node, path, enter)
    ensures node.Directory? ==> enter(node.name)
    ensures forall k :: 0 <= k < |path| - 1 ==> enter(path[k])
    decreases node
  {
    if path != [] {
      var c := Child(node.children, path[0]).value;
      ReachableEntered(c, path[1..], enter);
      forall k | 0 <= k < |path| - 1
        ensures enter(path[k])
      {
        if k > 0 {
          assert path[k] == path[1..][k - 1];
        }
      }
    }
  }
}
