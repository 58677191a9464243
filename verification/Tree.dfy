/** The manifest's tree of directories, as values: looking up a path, and putting an entry at a path. */
module Tree {
  import opened Packet

  type Name = string
  type Path = seq<Name>

  datatype ManifestEntry = ManifestEntry(creationDate: Option<int>, modifiedDate: Option<int>, specifics: Specifics)

  datatype Specifics =
    | Directory(contents: map<Name, ManifestEntry>)
    | File(hash: seq<byte>, blocks: seq<seq<byte>>)

  type Contents = map<Name, ManifestEntry>

  /** The entry at a path; the empty path names no entry. */
  function Lookup(contents: Contents, path: Path): Option<ManifestEntry>
    decreases |path|
  {
    if path == [] || path[0] !in contents then
      None
    else if |path| == 1 then
      Some(contents[path[0]])
    else
      match contents[path[0]].specifics
      case Directory(inner) => Lookup(inner, path[1..])
      case File(_, _) => None
  }

  /** The contents with the entry at the path, or `None` when the parent is not a directory. */
  function Insert(contents: Contents, path: Path, entry: ManifestEntry): Option<Contents>
    requires path != []
    decreases |path|
  {
    if |path| == 1 then
      Some(contents[path[0] := entry])
    else if path[0] !in contents then
      None
    else
      var child := contents[path[0]];
      match child.specifics
      case File(_, _) => None
      case Directory(inner) =>
        (match Insert(inner, path[1..], entry)
         case None => None
         case Some(updated) => Some(contents[path[0] := child.(specifics := Directory(updated))]))
  }

  /** What the loops of `create`, `get` and `list` end up in: the contents of the directory at the path. */
  function Descend(contents: Contents, parent: Path): Option<Contents>
    decreases |parent|
  {
    if parent == [] then
      Some(contents)
    else if parent[0] !in contents then
      None
    else
      match contents[parent[0]].specifics
      case Directory(inner) => Descend(inner, parent[1..])
      case File(_, _) => None
  }

  predicate IsDirectory(found: Option<ManifestEntry>) {
    found.Some? && found.value.specifics.Directory?
  }

  /** Entries from the root down, each in the directory before it, under the names of the path. */
  ghost predicate Leads(contents: Contents, path: Path, entries: seq<ManifestEntry>) {
    && |entries| == |path| > 0
    && path[0] in contents && entries[0] == contents[path[0]]
    && forall i | 0 <= i < |path| - 1 :: IsChild(entries[i], path[i + 1], entries[i + 1])
  }

  predicate IsChild(above: ManifestEntry, name: Name, below: ManifestEntry) {
    && above.specifics.Directory?
    && name in above.specifics.contents
    && below == above.specifics.contents[name]
  }

  lemma LeadsBelow(contents: Contents, path: Path, entries: seq<ManifestEntry>)
    requires Leads(contents, path, entries) && |path| > 1
    ensures entries[0].specifics.Directory? && Leads(entries[0].specifics.contents, path[1..], entries[1..])
  {
    assert IsChild(entries[0], path[0 + 1], entries[0 + 1]);
    forall i | 0 <= i < |path[1..]| - 1 ensures IsChild(entries[1..][i], path[1..][i + 1], entries[1..][i + 1]) {
      assert IsChild(entries[i + 1], path[(i + 1) + 1], entries[(i + 1) + 1]);
    }
  }

  /** A look-up finds an entry exactly when directories lead to it. */
  lemma {:induction false} LookupFollowsDirectories(contents: Contents, path: Path, entry: ManifestEntry)
    ensures Lookup(contents, path) == Some(entry) <==>
            exists entries :: Leads(contents, path, entries) && entries[|path| - 1] == entry
    decreases |path|
  {
    if path != [] && path[0] in contents {
      var first := contents[path[0]];
      if |path| == 1 {
        assert Leads(contents, path, [first]);
      } else {
        if entries :| Leads(contents, path, entries) && entries[|path| - 1] == entry {
          LeadsBelow(contents, path, entries);
          assert entries[1..][|path| - 2] == entry;
        }
        if first.specifics.Directory? {
          LookupFollowsDirectories(first.specifics.contents, path[1..], entry);
        }
        if Lookup(contents, path) == Some(entry) {
          var rest :| Leads(first.specifics.contents, path[1..], rest) && rest[|path| - 2] == entry;
          var entries := [first] + rest;
          assert forall i | 0 <= i < |path| - 1 :: i > 0 ==> entries[i] == rest[i - 1] && path[i] == path[1..][i - 1];
          assert Leads(contents, path, entries);
          assert entries[|path| - 1] == entry;
        }
      }
    }
  }

  // ----- descending -----

  /** A look-up is a descent to the parent, and one step from there. */
  lemma {:induction false} LookupFromParent(contents: Contents, parent: Path, name: Name)
    ensures Lookup(contents, parent + [name]) ==
            match Descend(contents, parent)
            case None => None
            case Some(inner) => if name in inner then Some(inner[name]) else None
    decreases |parent|
  {
    if parent == [] {
      assert parent + [name] == [name];
    } else {
      assert (parent + [name])[1..] == parent[1..] + [name];
      if parent[0] in contents && contents[parent[0]].specifics.Directory? {
        LookupFromParent(contents[parent[0]].specifics.contents, parent[1..], name);
      }
    }
  }

  lemma {:induction false} LookupThroughDirectory(contents: Contents, path: Path, rest: Path)
    requires path != [] && rest != []
    ensures Lookup(contents, path + rest) ==
            match Lookup(contents, path)
            case None => None
            case Some(e) => if e.specifics.Directory? then Lookup(e.specifics.contents, rest) else None
    decreases |path|
  {
    assert (path + rest)[1..] == path[1..] + rest;
    if |path| == 1 {
      assert path[1..] + rest == rest;
    } else if path[0] in contents && contents[path[0]].specifics.Directory? {
      LookupThroughDirectory(contents[path[0]].specifics.contents, path[1..], rest);
    }
  }

  // ----- the laws of an update -----

  /** An insertion succeeds exactly when its parent is the root or a directory. */
  lemma {:induction false} InsertSucceedsExactly(contents: Contents, path: Path, entry: ManifestEntry)
    requires path != []
    ensures Insert(contents, path, entry).Some? <==>
              |path| == 1 || IsDirectory(Lookup(contents, path[..|path| - 1]))
    decreases |path|
  {
    if |path| > 1 && path[0] in contents && contents[path[0]].specifics.Directory? {
      InsertSucceedsExactly(contents[path[0]].specifics.contents, path[1..], entry);
      assert path[..|path| - 1][1..] == path[1..][..|path| - 2];
    }
  }

  /** The entry itself, and everything below it, is what was put there. */
  lemma InsertThenLookupBelow(contents: Contents, path: Path, entry: ManifestEntry, rest: Path)
    requires path != [] && Insert(contents, path, entry).Some?
    ensures var after := Insert(contents, path, entry).value;
            && Lookup(after, path) == Some(entry)
            && (rest != [] ==>
                  Lookup(after, path + rest) ==
                  if entry.specifics.Directory? then Lookup(entry.specifics.contents, rest) else None)
  {
    var after := Insert(contents, path, entry).value;
    InsertThenLookup(contents, path, entry);
    if rest != [] {
      LookupThroughDirectory(after, path, rest);
    }
  }

  lemma {:induction false} InsertThenLookup(contents: Contents, path: Path, entry: ManifestEntry)
    requires path != [] && Insert(contents, path, entry).Some?
    ensures Lookup(Insert(contents, path, entry).value, path) == Some(entry)
    decreases |path|
  {
    if |path| > 1 {
      InsertThenLookup(contents[path[0]].specifics.contents, path[1..], entry);
    }
  }

  /** Paths that are neither above nor below the new entry lead where they did. */
  lemma {:induction false} InsertKeepsOthers(contents: Contents, path: Path, entry: ManifestEntry, other: Path)
    requires path != [] && Insert(contents, path, entry).Some?
    requires !(path <= other) && !(other <= path)
    ensures Lookup(Insert(contents, path, entry).value, other) == Lookup(contents, other)
    decreases |path|
  {
    if other[0] == path[0] {
      assert path == [path[0]] + path[1..] && other == [other[0]] + other[1..];
      assert |path| > 1 && |other| > 1;
      InsertKeepsOthers(contents[path[0]].specifics.contents, path[1..], entry, other[1..]);
    }
  }

  /** The directories above the new entry differ only in containing the updated subtree. */
  lemma {:induction false} InsertUpdatesAncestors(contents: Contents, path: Path, entry: ManifestEntry, above: Path)
    requires path != [] && Insert(contents, path, entry).Some?
    requires above != [] && above < path
    ensures var before := Lookup(contents, above);
            && IsDirectory(before)
            && var updated := Insert(before.value.specifics.contents, path[|above|..], entry);
            && updated.Some?
            && Lookup(Insert(contents, path, entry).value, above)
               == Some(before.value.(specifics := Directory(updated.value)))
    decreases |path|
  {
    if |above| > 1 {
      InsertUpdatesAncestors(contents[path[0]].specifics.contents, path[1..], entry, above[1..]);
      assert path[1..][|above[1..]|..] == path[|above|..];
    }
  }
}
