/** The Express server's state and the bodies of its routes: a `root` FileNode that
    the POST /api/add and DELETE /api/delete handlers change in place, and the read-only
    GET /api/filesystem and GET /api/directory handlers. */
module Server {
  import opened Paths
  import opened Namespace
  import opened Handlers
  import opened Flatten

  class FileServer {
    /** Every FileNode ever created, the root at index 0. */
    var entries: seq<Entry>

    ghost predicate Valid()
      reads this
    {
      Namespace.Valid(entries)
    }

    /** `let root = new FileNode('ROOT', true)` */
    constructor ()
      ensures entries == [Entry(RootName, true, [])]
      ensures Valid()
    {
      entries := [Entry(RootName, true, [])];
    }

    /** The position of the first child of `x` called `name`: `children.find`,
        `children.some` and `children.findIndex` with `child.name === name`. */
    method IndexOfChild(x: nat, name: string) returns (r: Option<nat>)
      requires Valid() && x < |entries|
      ensures r == FirstNamed(entries, entries[x].children, name)
    {
      var kids := entries[x].children;
      var i := 0;
      while i < |kids|
        invariant 0 <= i <= |kids|
        invariant forall j :: 0 <= j < i ==> entries[kids[j]].name != name
      {
        if entries[kids[i]].name == name {
          FirstNamedIs(entries, kids, name, i);
          return Some(i);
        }
        i := i + 1;
      }
      return None;
    }

    /** `findNodeByPath(pathArray)`: from the root, stop at a file or a missing child. */
    method FindNodeByPath(pathArray: seq<string>) returns (r: Option<nat>)
      requires Valid()
      ensures r == Resolve(entries, RootId, pathArray)
    {
      var current: nat := RootId;
      for i := 0 to |pathArray|
        invariant current < |entries|
        invariant Resolve(entries, RootId, pathArray) == Resolve(entries, current, pathArray[i..])
      {
        assert pathArray[i..][1..] == pathArray[i + 1..];
        if !entries[current].isDirectory {
          return None;
        }
        var k := IndexOfChild(current, pathArray[i]);
        if k.None? {
          return None;
        }
        current := entries[current].children[k.value];
      }
      assert pathArray[|pathArray|..] == [];
      return Some(current);
    }

    /** `pathArray.length === 0 ? root : findNodeByPath(pathArray)` */
    method Locate(pathArray: seq<string>) returns (r: Option<nat>)
      requires Valid()
      ensures r == Resolve(entries, RootId, pathArray)
    {
      if |pathArray| == 0 {
        r := Some(RootId);
      } else {
        r := FindNodeByPath(pathArray);
      }
    }

    /** GET /api/directory?path=...: the listing of one directory. It agrees with the
        entry GET /api/filesystem returns under the same key, except at an inherited
        name, which the served map never holds and whose directory is then empty. */
    method ListDirectory(path: string) returns (st: Status, items: seq<Item>)
      requires Valid()
      ensures st == Ok || st == NotFound || st == NotADirectory
      ensures st == NotFound <==> Resolve(entries, RootId, ServerPath(path)).None?
      ensures st == Ok <==> IsDirAt(entries, ServerPath(path))
      ensures st == Ok ==> items == Listing(entries, Resolve(entries, RootId, ServerPath(path)).value)
      ensures WellNamed(entries) && ServedFileSystem(entries).Some? ==>
        (st == Ok && path !in ProtoKeys <==> path in ServedFileSystem(entries).value)
      ensures WellNamed(entries) && ServedFileSystem(entries).Some? && st == Ok && path !in ProtoKeys ==>
        items == ServedFileSystem(entries).value[path]
      ensures ServedFileSystem(entries).Some? && st == Ok && path in ProtoKeys ==> items == []
    {
      var node := Locate(ServerPath(path));
      ghost var served := ServedFileSystem(entries);
      if WellNamed(entries) && served.Some? {
        ServedAgrees(entries, served.value, path);
      }
      if path in ProtoKeys && served.Some? && node.Some? && entries[node.value].isDirectory {
        ProtoKeysPlain();
        SplitPlain(path);
        ServedInheritedEmpty(entries, path);
      }
      if node.None? {
        return NotFound, [];
      }
      if !entries[node.value].isDirectory {
        return NotADirectory, [];
      }
      return Ok, Listing(entries, node.value);
    }

    /** POST /api/add with body `{ path, name, type }`; a missing field is "". */
    method HandleAdd(path: string, name: string, kind: string) returns (st: Status)
      requires Valid()
      modifies this
      ensures st == Add(old(entries), path, name, kind).status
      ensures entries == Add(old(entries), path, name, kind).entries
      ensures Valid()
    {
      if name == "" || kind == "" {
        return BadRequest;
      }
      var parent := Locate(ServerPath(path));
      if parent.None? {
        return NotFound;
      }
      var p := parent.value;
      if !entries[p].isDirectory {
        return NotADirectory;
      }
      var existing := IndexOfChild(p, name);
      if existing.Some? {
        return Conflict;
      }
      AddKeepsValid(entries, path, name, kind);
      var newNode := |entries|;
      entries := entries[p := entries[p].(children := entries[p].children + [newNode])] +
                 [Entry(name, kind == "directory", [])];
      return Ok;
    }

    /** DELETE /api/delete with body `{ path, name }`; a missing field is "".
        `wasDirectory` picks "Directory" or "File" in the success message. */
    method HandleDelete(path: string, name: string) returns (st: Status, wasDirectory: bool)
      requires Valid()
      modifies this
      ensures st == Delete(old(entries), path, name).status
      ensures entries == Delete(old(entries), path, name).entries
      ensures Valid()
      ensures st == Ok ==>
                Resolve(old(entries), RootId, ServerPath(path) + [name]).Some? &&
                wasDirectory == old(entries)[Resolve(old(entries), RootId, ServerPath(path) + [name]).value].isDirectory
    {
      wasDirectory := false;
      if name == "" {
        return BadRequest, wasDirectory;
      }
      var parent := Locate(ServerPath(path));
      if parent.None? {
        return NotFound, wasDirectory;
      }
      var p := parent.value;
      var itemIndex := IndexOfChild(p, name);
      if itemIndex.None? {
        return ItemNotFound, wasDirectory;
      }
      var i := itemIndex.value;
      DeleteKeepsValid(entries, path, name);
      DeleteTarget(entries, path, name);
      var kids := entries[p].children;
      wasDirectory := entries[kids[i]].isDirectory;
      entries := entries[p := entries[p].(children := kids[..i] + kids[i + 1..])];
      return Ok, wasDirectory;
    }

    /** `convertToFileSystem(node, path, result)`, where `result` is an object that
        inherits the names `inherited` from its prototype: push each child of `id` under
        `key`, descending into directory children right after pushing them.
        `!result[key]` is false for an inherited name, so no own entry is made for it,
        and the first push under it throws (None). */
    method ConvertInto(id: nat, key: string, ghost segs: seq<string>, result: FileSystem, inherited: set<string>)
      returns (out: Option<FileSystem>)
      requires Valid() && id < |entries| && NonEmptySegments(segs) && key == Join(segs)
      requires OwnOnly(result, inherited)
      ensures out.Some? <==> NoThrow(DirsOf(entries, id, segs), inherited)
      ensures out.Some? ==> out.value == Strip(Fold(result, DirsOf(entries, id, segs)), inherited)
      decreases |entries| - id, 1
    {
      var obj := result;
      if key !in obj && key !in inherited {
        obj := obj[key := []];
      }
      ghost var base := if key in result then result else result[key := []];
      var kids := entries[id].children;
      ConvertStarts(entries, id, segs, result, base, inherited);
      for j := 0 to |kids|
        invariant obj == Strip(Partial(entries, id, segs, base, j), inherited)
        invariant NoThrow(ChildDirs(entries, id, kids[..j], segs), inherited)
        invariant key in inherited ==> j == 0
        invariant OwnOnly(obj, inherited)
      {
        if key !in obj {
          // `result[key]` is the inherited value, which has no `push`
          InheritedKeyThrows(entries, id, segs, inherited);
          return None;
        }
        var next := VisitChild(id, key, segs, base, j, obj, inherited);
        if next.None? {
          return None;
        }
        obj := next.value;
      }
      ConvertEnds(entries, id, segs, result, base, inherited);
      return Some(obj);
    }

    /** The `forEach` callback for child `j` of `id`: push its item under `key`, then,
        for a directory, convert the child into the same object. None when that throws. */
    method VisitChild(id: nat, key: string, ghost segs: seq<string>, ghost base: FileSystem, j: nat,
                      obj: FileSystem, inherited: set<string>)
      returns (out: Option<FileSystem>)
      requires Valid() && id < |entries| && j < |entries[id].children|
      requires NonEmptySegments(segs) && key == Join(segs) && key in base
      requires obj == Strip(Partial(entries, id, segs, base, j), inherited) && key in obj && OwnOnly(obj, inherited)
      requires NoThrow(ChildDirs(entries, id, entries[id].children[..j], segs), inherited)
      ensures out.None? ==> !NoThrow(DirsOf(entries, id, segs), inherited)
      ensures out.Some? ==> out.value == Strip(Partial(entries, id, segs, base, j + 1), inherited)
      ensures out.Some? ==> OwnOnly(out.value, inherited)
      ensures out.Some? ==> NoThrow(ChildDirs(entries, id, entries[id].children[..j + 1], segs), inherited)
      decreases |entries| - id, 0
    {
      var c := entries[id].children[j];
      var child := entries[c];
      var pushed := obj[key := obj[key] + [ItemOf(child)]];
      assert pushed == Push(obj, key, [ItemOf(child)]);
      if child.isDirectory {
        var newKey := if key != "" then key + "/" + child.name else child.name;
        JoinSnoc(segs, child.name);
        PushOwnOnly(obj, key, [ItemOf(child)], inherited);
        var sub := ConvertInto(c, newKey, segs + [child.name], pushed, inherited);
        if sub.None? {
          ThrowBelow(entries, id, segs, j, inherited);
          return None;
        }
        ConvertChild(entries, id, segs, base, j, obj, sub.value, inherited);
        return sub;
      }
      ConvertChild(entries, id, segs, base, j, obj, pushed, inherited);
      return Some(pushed);
    }

    /** GET /api/filesystem: `convertToFileSystem(root)`, or None when it throws and the
        route answers 500. That happens exactly when a top-level directory named after an
        inherited property has a child. Otherwise the keys are the paths of the
        directories, less the inherited names, and each key holds its directory's listing. */
    method ConvertToFileSystem() returns (fs: Option<FileSystem>)
      requires Valid()
      ensures fs == ServedFileSystem(entries)
      ensures fs.None? <==> exists n :: ThrowsAt(entries, n)
      ensures WellNamed(entries) && fs.Some? ==>
        forall k :: k in fs.value <==> k !in ProtoKeys && IsDirAt(entries, ServerPath(k))
      ensures WellNamed(entries) && fs.Some? ==> forall k :: k in fs.value ==>
        IsDirAt(entries, ServerPath(k)) && fs.value[k] == Listing(entries, Resolve(entries, RootId, ServerPath(k)).value)
    {
      fs := ConvertInto(RootId, "", [], map[], ProtoKeys);
      ServedFails(entries);
      forall k | WellNamed(entries) && fs.Some?
        ensures k in fs.value <==> k !in ProtoKeys && IsDirAt(entries, ServerPath(k))
        ensures k in fs.value ==> IsDirAt(entries, ServerPath(k)) && fs.value[k] == Listing(entries, Resolve(entries, RootId, ServerPath(k)).value)
      {
        ServedAgrees(entries, fs.value, k);
      }
    }
  }

  // ---------------------------------------------------------------------------
  // GET /api/filesystem after an add or a delete

  /** After a successful add, the directory at `path` has a child. If `path` is an
      inherited name, the next conversion throws there. */
  lemma {:induction false} AddThrowsAtParent(es: seq<Entry>, path: string, name: string, kind: string)
    requires Valid(es) && Add(es, path, name, kind).status == Ok && path in ProtoKeys
    ensures Valid(Add(es, path, name, kind).entries) && ThrowsAt(Add(es, path, name, kind).entries, path)
  {
    ProtoKeysPlain();
    SplitPlain(path);
    AddKeepsValid(es, path, name, kind);
    AddAppendsChild(es, path, name, kind);
    AddKeepsPaths(es, path, name, kind, [path]);
  }

  /** A walk of one segment in the tree after an add that ends at an old node ended
      there before the add. */
  lemma {:induction false} AddResolveOld(es: seq<Entry>, path: string, name: string, kind: string, n: string, c: nat)
    requires Valid(es) && Add(es, path, name, kind).status == Ok
    requires Resolve(Add(es, path, name, kind).entries, RootId, [n]) == Some(c) && c < |es|
    ensures Resolve(es, RootId, [n]) == Some(c)
  {
    var p := Resolve(es, RootId, ServerPath(path)).value;
    AttachResolveOld(es, p, name, kind == "directory", n, c);
  }

  /** After a successful add, a top-level directory that makes the conversion throw
      made it throw before, or is the one the item was added to. */
  lemma {:induction false} AddThrowsBefore(es: seq<Entry>, path: string, name: string, kind: string, n: string)
    requires Valid(es) && Add(es, path, name, kind).status == Ok
    requires Valid(Add(es, path, name, kind).entries) && ThrowsAt(Add(es, path, name, kind).entries, n)
    ensures ThrowsAt(es, n) || n == path
  {
    var es2 := Add(es, path, name, kind).entries;
    var P := ServerPath(path);
    var p := Resolve(es, RootId, P).value;
    var d := Resolve(es2, RootId, [n]).value;
    AddAppendsChild(es, path, name, kind);
    assert d < |es|;
    AddResolveOld(es, path, name, kind, n, d);
    if d == p {
      PathUnique(es, P, [n]);
      JoinServerPath(path);
    }
  }

  lemma {:induction false} AddThrowsOnlyThere(es: seq<Entry>, path: string, name: string, kind: string)
    requires Valid(es) && Add(es, path, name, kind).status == Ok
    ensures Valid(Add(es, path, name, kind).entries)
    ensures forall n :: ThrowsAt(Add(es, path, name, kind).entries, n) ==> ThrowsAt(es, n) || n == path
  {
    AddKeepsValid(es, path, name, kind);
    forall n | ThrowsAt(Add(es, path, name, kind).entries, n) ensures ThrowsAt(es, n) || n == path {
      AddThrowsBefore(es, path, name, kind, n);
    }
  }

  /** The refresh after a successful add: GET /api/filesystem keeps answering, unless the
      item went into a top-level directory named after an inherited property, whose
      first child makes it answer 500 from then on. */
  lemma {:induction false} AddRefreshFails(es: seq<Entry>, path: string, name: string, kind: string)
    requires Valid(es) && Add(es, path, name, kind).status == Ok && ServedFileSystem(es).Some?
    ensures Valid(Add(es, path, name, kind).entries)
    ensures ServedFileSystem(Add(es, path, name, kind).entries).None? <==> path in ProtoKeys
  {
    var es2 := Add(es, path, name, kind).entries;
    AddThrowsOnlyThere(es, path, name, kind);
    if path in ProtoKeys {
      AddThrowsAtParent(es, path, name, kind);
    }
    ServedFails(es);
    ServedFails(es2);
  }

  /** After a successful delete, a top-level directory that makes the conversion throw
      made it throw before: a delete adds no child anywhere. */
  lemma {:induction false} DeleteThrowsBefore(es: seq<Entry>, path: string, name: string, n: string)
    requires Valid(es) && Delete(es, path, name).status == Ok
    requires Valid(Delete(es, path, name).entries) && ThrowsAt(Delete(es, path, name).entries, n)
    ensures ThrowsAt(es, n)
  {
    var es2 := Delete(es, path, name).entries;
    var P := ServerPath(path);
    var p := Resolve(es, RootId, P).value;
    var kids := es[p].children;
    var i := FirstNamed(es, kids, name).value;
    DeleteSplicesChild(es, path, name);
    DeleteRemovesSubtree(es, path, name, []);
    assert P + [name] + [] == P + [name];
    assert !(P + [name] <= [n]);
    DeleteKeepsOtherPaths(es, path, name, [n]);
    assert |kids[..i] + kids[i + 1..]| == |kids| - 1;
  }

  lemma {:induction false} DeleteThrowsOnlyBefore(es: seq<Entry>, path: string, name: string)
    requires Valid(es) && Delete(es, path, name).status == Ok
    ensures Valid(Delete(es, path, name).entries)
    ensures forall n :: ThrowsAt(Delete(es, path, name).entries, n) ==> ThrowsAt(es, n)
  {
    DeleteKeepsValid(es, path, name);
    forall n | ThrowsAt(Delete(es, path, name).entries, n) ensures ThrowsAt(es, n) {
      DeleteThrowsBefore(es, path, name, n);
    }
  }

  /** The refresh after a successful delete: if GET /api/filesystem answered before, it
      still answers. */
  lemma {:induction false} DeleteKeepsServed(es: seq<Entry>, path: string, name: string)
    requires Valid(es) && Delete(es, path, name).status == Ok && ServedFileSystem(es).Some?
    ensures Valid(Delete(es, path, name).entries) && ServedFileSystem(Delete(es, path, name).entries).Some?
  {
    DeleteThrowsOnlyBefore(es, path, name);
    ServedFails(es);
    ServedFails(Delete(es, path, name).entries);
  }
}
