/** The manifest as it is written: cursors that move down the tree, and a queue that is walked. */
module Manifests {
  import opened Packet
  import opened Tree
  import opened Walk

  datatype Result<+T> = Ok(value: T) | CreateError(path: Path)

  /** Moves a cursor from the root to the directory at `parent`; `None` when something else is in the way. */
  method MoveDown(root: Contents, parent: Path) returns (workingDirectory: Option<Contents>)
    ensures workingDirectory == Descend(root, parent)
  {
    var working := root;
    for i := 0 to |parent|
      invariant Descend(root, parent) == Descend(working, parent[i..])
    {
      if parent[i] in working && working[parent[i]].specifics.Directory? {
        working := working[parent[i]].specifics.contents;
      } else {
        return None;
      }
    }
    return Some(working);
  }

  class Manifest {
    var root: Contents

    constructor ()
      ensures root == map[]
    {
      root := map[];
    }

    /** An entry replaces whatever was at its path; without a directory to put it in, nothing changes. */
    method Create(path: Path, entry: ManifestEntry) returns (r: Result<()>)
      requires path != []
      modifies this
      ensures match Insert(old(root), path, entry)
              case Some(after) => r == Ok(()) && root == after
              case None => r == CreateError(path) && root == old(root)
    {
      var n := |path| - 1;
      var levels := [root];
      for i := 0 to n
        invariant |levels| == i + 1 && levels[0] == root
        invariant root == old(root)
        invariant forall j | 0 <= j < i :: IsStep(levels[j], path[j], levels[j + 1])
        invariant Insert(root, path, entry).Some? <==> Insert(levels[i], path[i..], entry).Some?
      {
        var name := path[i];
        assert path[i..][0] == name && path[i..][1..] == path[i + 1..];
        if name in levels[i] && levels[i][name].specifics.Directory? {
          levels := levels + [levels[i][name].specifics.contents];
        } else {
          return CreateError(path);
        }
      }
      var working := levels[n][path[n] := entry];
      assert path[n..] == [path[n]];
      for i := n downto 0
        invariant Insert(levels[i], path[i..], entry) == Some(working)
      {
        assert path[i..][0] == path[i] && path[i..][1..] == path[i + 1..];
        assert IsStep(levels[i], path[i], levels[i + 1]);
        working := levels[i][path[i] := levels[i][path[i]].(specifics := Directory(working))];
      }
      assert path[0..] == path;
      root := working;
      return Ok(());
    }

    method Get(path: Path) returns (r: Result<ManifestEntry>)
      ensures r == match Lookup(root, path)
                   case Some(entry) => Ok(entry)
                   case None => CreateError(path)
    {
      if path == [] {
        return CreateError(path);
      }
      var parent, fileName := path[..|path| - 1], path[|path| - 1];
      assert parent + [fileName] == path;
      LookupFromParent(root, parent, fileName);
      var working := MoveDown(root, parent);
      if working.None? || fileName !in working.value {
        return CreateError(path);
      }
      return Ok(working.value[fileName]);
    }

    /** Lists exactly the directories, with the contents that `Get` finds there. */
    method List(path: Path) returns (r: Result<Contents>)
      ensures r == if IsDirectory(Lookup(root, path))
                   then Ok(Lookup(root, path).value.specifics.contents) else CreateError(path)
    {
      if path == [] {
        return CreateError(path);
      }
      var parent, fileName := path[..|path| - 1], path[|path| - 1];
      assert parent + [fileName] == path;
      LookupFromParent(root, parent, fileName);
      var working := MoveDown(root, parent);
      if working.None? || fileName !in working.value || !working.value[fileName].specifics.Directory? {
        return CreateError(path);
      }
      return Ok(working.value[fileName].specifics.contents);
    }

    /** Yields all that is at or below the base, each path once, the less deep ones first. */
    method Walk(base: Path) returns (visited: seq<Item>)
      requires Lookup(root, base).Some?
      ensures forall path, entry :: (path, entry) in visited <==> base <= path && Lookup(root, path) == Some(entry)
      ensures forall i, j | 0 <= i < j < |visited| :: visited[i].0 != visited[j].0
      ensures forall i, j | 0 <= i < j < |visited| :: |visited[i].0| <= |visited[j].0|
    {
      var entry := Get(base);
      var queue := [(base, entry.value)];
      visited := [];
      StartInv(root, base);
      ghost var remaining := Paths(root);
      while queue != []
        invariant Inv(root, base, visited, queue)
        invariant forall path :: path in remaining <==> path in Paths(root) && !Visited(visited, path)
        decreases remaining
      {
        var item := queue[0];
        var children := Expand(item);
        StepInv(root, base, visited, queue, children);
        PathsAreAll(root, item.0);
        assert !Visited(visited, item.0);
        ghost var before := visited;
        queue, visited := queue[1..] + children, visited + [item];
        VisitedAfter(before, item);
        remaining := remaining - {item.0};
      }
      WalkIsComplete(root, base, visited);
    }
  }

  predicate IsStep(above: Contents, name: Name, below: Contents) {
    name in above && above[name].specifics == Directory(below)
  }

  /** The children of an item, in whatever order the map gives them out. */
  method Expand(item: Item) returns (children: seq<Item>)
    ensures Children(item, children)
  {
    children := [];
    if item.1.specifics.Directory? {
      var contents := item.1.specifics.contents;
      var names := contents.Keys;
      while names != {}
        invariant names <= contents.Keys
        invariant forall i | 0 <= i < |children| ::
                    && |children[i].0| == |item.0| + 1
                    && item.0 < children[i].0
                    && children[i].0[|item.0|] in contents
                    && children[i].0[|item.0|] !in names
                    && children[i].1 == contents[children[i].0[|item.0|]]
        invariant forall i, j | 0 <= i < j < |children| :: children[i].0 != children[j].0
        invariant forall name | name in contents && name !in names :: Visited(children, item.0 + [name])
      {
        var name :| name in names;
        ghost var before := children;
        children := children + [(item.0 + [name], contents[name])];
        VisitedAfter(before, (item.0 + [name], contents[name]));
        names := names - {name};
      }
    }
  }

  lemma WalkIsComplete(root: Contents, base: Path, visited: seq<Item>)
    requires Inv(root, base, visited, [])
    ensures forall path, entry :: (path, entry) in visited <==> base <= path && Lookup(root, path) == Some(entry)
  {
  }
}
