/** The bookkeeping of a breadth-first walk: what has been visited, and what is queued to be. */
module Walk {
  import opened Packet
  import opened Tree

  type Item = (Path, ManifestEntry)

  // ----- paths that resolve -----

  lemma {:induction false} PrefixResolves(root: Contents, path: Path, above: Path)
    requires Lookup(root, path).Some? && above != [] && above <= path
    ensures Lookup(root, above).Some?
    ensures above < path ==>
              IsDirectory(Lookup(root, above))
              && path[|above|] in Lookup(root, above).value.specifics.contents
  {
    if above < path {
      assert path == above + path[|above|..];
      LookupThroughDirectory(root, above, path[|above|..]);
    } else {
      assert above == path;
    }
  }

  lemma ChildResolves(root: Contents, path: Path, e: ManifestEntry, name: Name)
    requires path != [] && Lookup(root, path) == Some(e) && e.specifics.Directory?
    ensures Lookup(root, path + [name]) ==
            if name in e.specifics.contents then Some(e.specifics.contents[name]) else None
  {
    LookupThroughDirectory(root, path, [name]);
  }

  /** The relative paths from an entry to itself and to all below it. */
  function PathsFrom(specifics: Specifics): set<Path> {
    {[]} + match specifics
           case Directory(contents) =>
             (set name, rest | name in contents && rest in PathsFrom(contents[name].specifics) :: [name] + rest)
           case File(_, _) => {}
  }

  /** All paths that lead somewhere, as a finite set. */
  function Paths(contents: Contents): set<Path> {
    PathsFrom(Directory(contents)) - {[]}
  }

  lemma {:induction false} PathsAreAll(contents: Contents, path: Path)
    ensures path in Paths(contents) <==> Lookup(contents, path).Some?
    decreases |path|
  {
    if path != [] && path[0] in contents {
      var e := contents[path[0]];
      assert path == [path[0]] + path[1..];
      if path[1..] != [] && e.specifics.Directory? {
        PathsAreAll(e.specifics.contents, path[1..]);
      }
      assert path in Paths(contents) <==> path[1..] in PathsFrom(e.specifics);
    }
  }

  // ----- the invariant -----

  ghost predicate Genuine(root: Contents, base: Path, items: seq<Item>) {
    forall i | 0 <= i < |items| :: base <= items[i].0 && Lookup(root, items[i].0) == Some(items[i].1)
  }

  ghost predicate Visited(visited: seq<Item>, path: Path) {
    exists i | 0 <= i < |visited| :: visited[i].0 == path
  }

  /** The path is queued, or lies below one that is. */
  ghost predicate Due(queue: seq<Item>, path: Path) {
    exists i | 0 <= i < |queue| :: queue[i].0 <= path
  }

  ghost predicate Covers(root: Contents, base: Path, visited: seq<Item>, queue: seq<Item>) {
    forall path | base <= path && Lookup(root, path).Some? :: Visited(visited, path) || Due(queue, path)
  }

  ghost predicate Apart(visited: seq<Item>, queue: seq<Item>) {
    && (forall i, j | 0 <= i < |queue| && 0 <= j < |queue| && i != j :: !(queue[i].0 <= queue[j].0))
    && (forall i, j | 0 <= i < |queue| && 0 <= j < |visited| :: !(queue[i].0 <= visited[j].0))
    && (forall i, j | 0 <= i < j < |visited| :: visited[i].0 != visited[j].0)
  }

  ghost predicate Layered(visited: seq<Item>, queue: seq<Item>) {
    && (forall i, j | 0 <= i < j < |visited| :: |visited[i].0| <= |visited[j].0|)
    && (forall i, j | 0 <= i < |visited| && 0 <= j < |queue| :: |visited[i].0| <= |queue[j].0|)
    && (forall i, j | 0 <= i < j < |queue| :: |queue[i].0| <= |queue[j].0| <= |queue[i].0| + 1)
  }

  ghost predicate Inv(root: Contents, base: Path, visited: seq<Item>, queue: seq<Item>) {
    && base != []
    && Genuine(root, base, visited) && Genuine(root, base, queue)
    && Covers(root, base, visited, queue)
    && Apart(visited, queue)
    && Layered(visited, queue)
  }

  /** The children of an item, each once, in any order. */
  ghost predicate Children(item: Item, children: seq<Item>) {
    match item.1.specifics
    case File(_, _) => children == []
    case Directory(contents) =>
      && (forall i | 0 <= i < |children| ::
            && |children[i].0| == |item.0| + 1
            && item.0 < children[i].0
            && children[i].0[|item.0|] in contents
            && children[i].1 == contents[children[i].0[|item.0|]])
      && (forall i, j | 0 <= i < j < |children| :: children[i].0 != children[j].0)
      && (forall name | name in contents :: Visited(children, item.0 + [name]))
  }

  // ----- the steps keep the invariant -----

  lemma StartInv(root: Contents, base: Path)
    requires base != [] && Lookup(root, base).Some?
    ensures Inv(root, base, [], [(base, Lookup(root, base).value)])
  {
    assert [(base, Lookup(root, base).value)][0].0 <= base;
  }

  lemma ChildrenAreGenuine(root: Contents, base: Path, item: Item, children: seq<Item>)
    requires base != [] && Genuine(root, base, [item]) && Children(item, children)
    ensures Genuine(root, base, children)
  {
    assert [item][0] == item;
    forall i | 0 <= i < |children|
      ensures base <= children[i].0 && Lookup(root, children[i].0) == Some(children[i].1)
    {
      var name := children[i].0[|item.0|];
      assert children[i].0 == item.0 + [name];
      ChildResolves(root, item.0, item.1, name);
    }
  }

  /** What lies properly below a visited directory lies at or below one of its children. */
  lemma BelowIsBelowChild(root: Contents, item: Item, children: seq<Item>, path: Path)
    requires item.0 != [] && Lookup(root, item.0) == Some(item.1) && Children(item, children)
    requires item.0 < path && Lookup(root, path).Some?
    ensures Due(children, path)
  {
    PrefixResolves(root, path, item.0);
    var child := item.0 + [path[|item.0|]];
    assert Visited(children, child);
    assert child <= path;
  }

  lemma DueAfterStep(queue: seq<Item>, children: seq<Item>, path: Path)
    requires queue != []
    ensures Due(queue, path) ==> queue[0].0 <= path || Due(queue[1..] + children, path)
    ensures Due(children, path) ==> Due(queue[1..] + children, path)
  {
    var rest := queue[1..];
    if Due(queue, path) {
      var i :| 0 <= i < |queue| && queue[i].0 <= path;
      assert i > 0 ==> (rest + children)[i - 1].0 <= path;
    }
    if Due(children, path) {
      var i :| 0 <= i < |children| && children[i].0 <= path;
      assert (rest + children)[|rest| + i].0 <= path;
    }
  }

  lemma StepCovers(root: Contents, base: Path, visited: seq<Item>, queue: seq<Item>, children: seq<Item>)
    requires Inv(root, base, visited, queue) && queue != [] && Children(queue[0], children)
    ensures Covers(root, base, visited + [queue[0]], queue[1..] + children)
  {
    var item := queue[0];
    forall path | base <= path && Lookup(root, path).Some?
      ensures Visited(visited + [item], path) || Due(queue[1..] + children, path)
    {
      VisitedAfter(visited, item);
      DueAfterStep(queue, children, path);
      if !Visited(visited, path) && item.0 < path {
        BelowIsBelowChild(root, item, children, path);
      }
    }
  }

  lemma VisitedAfter(before: seq<Item>, item: Item)
    ensures forall path :: Visited(before + [item], path) <==> Visited(before, path) || path == item.0
  {
    var after := before + [item];
    forall path ensures Visited(after, path) <==> Visited(before, path) || path == item.0 {
      if Visited(before, path) {
        var i :| 0 <= i < |before| && before[i].0 == path;
        assert after[i].0 == path;
      }
      if path == item.0 {
        assert after[|before|].0 == path;
      }
    }
  }

  lemma StepApart(visited: seq<Item>, queue: seq<Item>, children: seq<Item>)
    requires Apart(visited, queue) && queue != [] && Children(queue[0], children)
    ensures Apart(visited + [queue[0]], queue[1..] + children)
  {
  }

  lemma StepLayered(visited: seq<Item>, queue: seq<Item>, children: seq<Item>)
    requires Layered(visited, queue) && queue != [] && Children(queue[0], children)
    ensures Layered(visited + [queue[0]], queue[1..] + children)
  {
  }

  lemma StepInv(root: Contents, base: Path, visited: seq<Item>, queue: seq<Item>, children: seq<Item>)
    requires Inv(root, base, visited, queue) && queue != [] && Children(queue[0], children)
    ensures Inv(root, base, visited + [queue[0]], queue[1..] + children)
  {
    assert [queue[0]][0] == queue[0];
    ChildrenAreGenuine(root, base, queue[0], children);
    StepCovers(root, base, visited, queue, children);
    StepApart(visited, queue, children);
    StepLayered(visited, queue, children);
  }
}
