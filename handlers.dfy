/** The decision logic of the POST /api/add and DELETE /api/delete route handlers,
    lifted out of Express: each takes the tree and the request body and returns a
    status code together with the tree after the request. */
module Handlers {
  import opened Paths
  import opened Namespace

  /** The handlers' replies: the HTTP status and error message they stand for. */
  datatype Status =
    | Ok             // 200, success: true
    | BadRequest     // 400 "Name and type are required" / "Name is required"
    | NotFound       // 404 "Parent directory not found" / "Directory not found"
    | NotADirectory  // 400 "Parent is not a directory" / "Not a directory"
    | Conflict       // 409 "Item with this name already exists"
    | ItemNotFound   // 404 "Item not found"

  datatype Outcome = Outcome(status: Status, entries: seq<Entry>)

  /** `parentNode.children.push(new FileNode(name, isDirectory))`: the new node gets
      the next free arena index. */
  function Attach(es: seq<Entry>, p: nat, name: string, isDirectory: bool): (r: seq<Entry>)
    requires p < |es|
    ensures Ordered(es) ==> Ordered(r)
  {
    es[p := es[p].(children := es[p].children + [|es|])] + [Entry(name, isDirectory, [])]
  }

  /** `parentNode.children.splice(i, 1)`: the removed node and everything below it are
      no longer reachable (they stay in the arena, as garbage would in the heap). */
  function Detach(es: seq<Entry>, p: nat, i: nat): (r: seq<Entry>)
    requires p < |es| && i < |es[p].children|
    ensures Ordered(es) ==> Ordered(r)
  {
    var kids := es[p].children;
    var kids2 := kids[..i] + kids[i + 1..];
    assert forall k :: 0 <= k < |kids2| ==> kids2[k] == kids[if k < i then k else k + 1];
    es[p := es[p].(children := kids2)]
  }

  /** POST /api/add with body `{ path, name, type }` (a missing field is ""). */
  function Add(es: seq<Entry>, path: string, name: string, kind: string): (r: Outcome)
    requires Valid(es)
    ensures r.status != Ok ==> r.entries == es
    ensures r.status == Ok ==> |r.entries| == |es| + 1 && r.entries[|es|] == Entry(name, kind == "directory", [])
  {
    if name == "" || kind == "" then Outcome(BadRequest, es)
    else match Resolve(es, RootId, ServerPath(path))
      case None => Outcome(NotFound, es)
      case Some(p) =>
        if !es[p].isDirectory then Outcome(NotADirectory, es)
        else if FirstNamed(es, es[p].children, name).Some? then Outcome(Conflict, es)
        else Outcome(Ok, Attach(es, p, name, kind == "directory"))
  }

  /** DELETE /api/delete with body `{ path, name }` (a missing field is ""). The
      handler does not check that the parent is a directory; a file has no
      children, so the item is then not found. */
  function Delete(es: seq<Entry>, path: string, name: string): (r: Outcome)
    requires Valid(es)
    ensures r.status != Ok ==> r.entries == es
    ensures |r.entries| == |es|
  {
    if name == "" then Outcome(BadRequest, es)
    else match Resolve(es, RootId, ServerPath(path))
      case None => Outcome(NotFound, es)
      case Some(p) =>
        match FirstNamed(es, es[p].children, name)
        case None => Outcome(ItemNotFound, es)
        case Some(i) => Outcome(Ok, Detach(es, p, i))
  }

  /** The refusals of an add and what causes each; a refused add changes nothing. */
  lemma {:induction false} AddRejects(es: seq<Entry>, path: string, name: string, kind: string)
    requires Valid(es)
    ensures var o := Add(es, path, name, kind);
            var parent := Resolve(es, RootId, ServerPath(path));
            && (o.status == BadRequest <==> name == "" || kind == "")
            && (o.status == NotFound <==> name != "" && kind != "" && parent.None?)
            && (o.status == NotADirectory <==>
                  name != "" && kind != "" && parent.Some? && !es[parent.value].isDirectory)
            && (o.status == Conflict <==>
                  name != "" && kind != "" && parent.Some? && es[parent.value].isDirectory &&
                  exists k :: 0 <= k < |es[parent.value].children| && es[es[parent.value].children[k]].name == name)
            && o.status != ItemNotFound
            && (o.status != Ok ==> o.entries == es)
  {
    match Resolve(es, RootId, ServerPath(path))
    case None =>
    case Some(p) =>
      var kids := es[p].children;
      match FirstNamed(es, kids, name)
      case None =>
      case Some(k) => assert 0 <= k < |kids| && es[kids[k]].name == name;
  }

  /** With all fields present and a directory as parent, an add either succeeds or
      meets a child of the same name. */
  lemma {:induction false} AddAtDirectory(es: seq<Entry>, path: string, name: string, kind: string)
    requires Valid(es) && name != "" && kind != "" && IsDirAt(es, ServerPath(path))
    ensures var o := Add(es, path, name, kind);
            var d := Resolve(es, RootId, ServerPath(path)).value;
            && (o.status == Ok || o.status == Conflict)
            && (o.status == Conflict <==>
                  exists k :: 0 <= k < |es[d].children| && es[es[d].children[k]].name == name)
  {
    AddRejects(es, path, name, kind);
  }

  /** The refusals of a delete and what causes each; a refused delete changes nothing.
      A parent that is a file has no children, so its items are never found. */
  lemma {:induction false} DeleteRejects(es: seq<Entry>, path: string, name: string)
    requires Valid(es)
    ensures var o := Delete(es, path, name);
            var parent := Resolve(es, RootId, ServerPath(path));
            && (o.status == BadRequest <==> name == "")
            && (o.status == NotFound <==> name != "" && parent.None?)
            && (o.status == ItemNotFound <==>
                  name != "" && parent.Some? &&
                  forall k :: 0 <= k < |es[parent.value].children| ==> es[es[parent.value].children[k]].name != name)
            && o.status != NotADirectory && o.status != Conflict
            && (o.status != Ok ==> o.entries == es)
  {
    match Resolve(es, RootId, ServerPath(path))
    case None =>
    case Some(p) =>
      var kids := es[p].children;
      match FirstNamed(es, kids, name)
      case None =>
      case Some(k) => assert 0 <= k < |kids| && es[kids[k]].name == name;
  }

  // ---------------------------------------------------------------------------
  // Steps that do not look at the changed node behave as before

  lemma {:induction false} FirstNamedFrame(es: seq<Entry>, es2: seq<Entry>, kids: seq<nat>, name: string)
    requires forall k :: 0 <= k < |kids| ==> kids[k] < |es| && kids[k] < |es2|
    requires forall k :: 0 <= k < |kids| ==> es2[kids[k]].name == es[kids[k]].name
    ensures FirstNamed(es2, kids, name) == FirstNamed(es, kids, name)
  {
    var r, r2 := FirstNamed(es, kids, name), FirstNamed(es2, kids, name);
    if r.Some? && r2.Some? {
      assert !(r.value < r2.value) && !(r2.value < r.value);
    }
  }

  lemma {:induction false} StepFrame(es: seq<Entry>, es2: seq<Entry>, x: nat, s: string)
    requires Ordered(es) && Ordered(es2) && x < |es| <= |es2|
    requires es2[x] == es[x]
    requires forall k :: 0 <= k < |es| ==> es2[k].name == es[k].name
    ensures Step(es2, x, s) == Step(es, x, s)
  {
    FirstNamedFrame(es, es2, es[x].children, s);
  }

  // ---------------------------------------------------------------------------
  // Add

  lemma {:induction false} AttachValid(es: seq<Entry>, p: nat, name: string, isDirectory: bool)
    requires Valid(es) && p < |es| && es[p].isDirectory && name != ""
    requires FirstNamed(es, es[p].children, name).None?
    ensures Valid(Attach(es, p, name, isDirectory))
  {
    AttachSiblings(es, p, name, isDirectory);
    AttachSingleParent(es, p, name, isDirectory);
  }

  /** The new name differs from every old sibling's name, so sibling names stay unique. */
  lemma {:induction false} AttachSiblings(es: seq<Entry>, p: nat, name: string, isDirectory: bool)
    requires Ordered(es) && SiblingNamesUnique(es) && p < |es|
    requires FirstNamed(es, es[p].children, name).None?
    ensures Ordered(Attach(es, p, name, isDirectory)) && SiblingNamesUnique(Attach(es, p, name, isDirectory))
  {
    var es2 := Attach(es, p, name, isDirectory);
    var n := |es|;
    forall i, a, b | 0 <= i < |es2| && 0 <= a < b < |es2[i].children|
      ensures es2[es2[i].children[a]].name != es2[es2[i].children[b]].name
    {
      if i == p && b == |es[p].children| {
        assert es2[i].children[a] == es[p].children[a];
      } else if i != p {
        assert es2[i] == es[i];
      } else {
        assert es2[i].children[a] == es[p].children[a] && es2[i].children[b] == es[p].children[b];
      }
    }
  }

  /** The new node is in no old children list, so every node keeps a single parent. */
  lemma {:induction false} AttachSingleParent(es: seq<Entry>, p: nat, name: string, isDirectory: bool)
    requires Ordered(es) && SingleParent(es) && p < |es|
    ensures SingleParent(Attach(es, p, name, isDirectory))
    ensures |es| in Attach(es, p, name, isDirectory)[p].children
  {
    var es2 := Attach(es, p, name, isDirectory);
    var n := |es|;
    forall i, j, a, b |
      0 <= i < |es2| && 0 <= j < |es2| && 0 <= a < |es2[i].children| && 0 <= b < |es2[j].children| &&
      es2[i].children[a] == es2[j].children[b]
      ensures i == j && a == b
    {
      if es2[i].children[a] != n {
        assert es2[i].children[a] == es[i].children[a];
        assert es2[j].children[b] == es[j].children[b];
      }
    }
  }


  /** A successful add keeps every tree invariant, sibling-name uniqueness above all. */
  lemma {:induction false} AddKeepsValid(es: seq<Entry>, path: string, name: string, kind: string)
    requires Valid(es)
    ensures Valid(Add(es, path, name, kind).entries)
  {
    if Add(es, path, name, kind).status == Ok {
      var p := Resolve(es, RootId, ServerPath(path)).value;
      AttachValid(es, p, name, kind == "directory");
    }
  }

  lemma {:induction false} AttachStepOld(es: seq<Entry>, p: nat, name: string, isDirectory: bool, s: string)
    requires Valid(es) && p < |es| && Step(es, p, s).Some?
    ensures Step(Attach(es, p, name, isDirectory), p, s) == Step(es, p, s)
  {
    var es2 := Attach(es, p, name, isDirectory);
    var kids := es[p].children;
    var k := FirstNamed(es, kids, s).value;
    var r2 := FirstNamed(es2, kids + [|es|], s);
    assert es2[p].children == kids + [|es|];
    assert (kids + [|es|])[k] == kids[k];
    assert r2.Some? && !(r2.value < k) && !(k < r2.value);
  }

  /** A top-level node reached after an attach that existed before was reached the
      same way before. */
  lemma {:induction false} AttachResolveOld(es: seq<Entry>, p: nat, name: string, isDirectory: bool, n: string, c: nat)
    requires Valid(es) && p < |es|
    requires Resolve(Attach(es, p, name, isDirectory), RootId, [n]) == Some(c) && c < |es|
    ensures Resolve(es, RootId, [n]) == Some(c)
  {
    var es2 := Attach(es, p, name, isDirectory);
    assert forall i :: 0 <= i < |es| ==> es2[i].name == es[i].name;
    if p == RootId {
      assert es2[RootId].children == es[RootId].children + [|es|];
    } else {
      assert es2[RootId] == es[RootId];
    }
    ResolveBackOld(es, es2, n);
  }

  lemma {:induction false} AttachKeepsPaths(es: seq<Entry>, p: nat, name: string, isDirectory: bool, x: nat, q: seq<string>)
    requires Valid(es) && p < |es| && x < |es|
    requires Resolve(es, x, q).Some?
    ensures Resolve(Attach(es, p, name, isDirectory), x, q) == Resolve(es, x, q)
    decreases |q|
  {
    var es2 := Attach(es, p, name, isDirectory);
    if q != [] {
      var c := Step(es, x, q[0]).value;
      if x == p {
        AttachStepOld(es, p, name, isDirectory, q[0]);
      } else {
        StepFrame(es, es2, x, q[0]);
      }
      AttachKeepsPaths(es, p, name, isDirectory, c, q[1..]);
    }
  }

  lemma {:induction false} AttachStep(es: seq<Entry>, p: nat, name: string, isDirectory: bool)
    requires Valid(es) && p < |es| && es[p].isDirectory
    requires FirstNamed(es, es[p].children, name).None?
    ensures Step(Attach(es, p, name, isDirectory), p, name) == Some(|es|)
  {
    var es2 := Attach(es, p, name, isDirectory);
    var kids := es[p].children;
    assert es2[p].children == kids + [|es|];
    assert forall k :: 0 <= k < |kids| ==> es2[kids[k]].name == es[kids[k]].name;
    assert (kids + [|es|])[|kids|] == |es| && es2[|es|].name == name;
    var r2 := FirstNamed(es2, kids + [|es|], name);
    assert r2.Some?;
    assert !(r2.value < |kids|);
  }

  lemma {:induction false} AttachListing(es: seq<Entry>, p: nat, name: string, isDirectory: bool)
    requires Ordered(es) && p < |es|
    ensures Listing(Attach(es, p, name, isDirectory), p) == Listing(es, p) + [ItemOf(Entry(name, isDirectory, []))]
  {
    var es2 := Attach(es, p, name, isDirectory);
    assert es2[p].children == es[p].children + [|es|];
    assert forall k :: 0 <= k < |es| ==> es2[k].name == es[k].name && es2[k].isDirectory == es[k].isDirectory;
  }

  /** A successful add appends exactly one node, called `name`, with no children and
      a directory exactly when `type` is "directory", at the end of the parent's
      children; the parent's earlier children keep their order, every other node is
      unchanged, and the new node is found at the parent's path followed by `name`. */
  lemma {:induction false} AddAppendsChild(es: seq<Entry>, path: string, name: string, kind: string)
    requires Valid(es) && Add(es, path, name, kind).status == Ok
    ensures var es2 := Add(es, path, name, kind).entries;
            var p := Resolve(es, RootId, ServerPath(path)).value;
            && |es2| == |es| + 1
            && es2[|es|] == Entry(name, kind == "directory", [])
            && es2[p] == es[p].(children := es[p].children + [|es|])
            && Listing(es2, p) == Listing(es, p) + [Item(name, if kind == "directory" then Directory else File)]
            && (forall i :: 0 <= i < |es| && i != p ==> es2[i] == es[i])
            && Resolve(es2, RootId, ServerPath(path) + [name]) == Some(|es|)
  {
    var es2 := Add(es, path, name, kind).entries;
    var P := ServerPath(path);
    var p := Resolve(es, RootId, P).value;
    AttachKeepsPaths(es, p, name, kind == "directory", RootId, P);
    ResolveSnoc(es2, RootId, P, name);
    AttachStep(es, p, name, kind == "directory");
    AttachListing(es, p, name, kind == "directory");
  }

  /** An add of a name without '/' keeps every name free of '/'. */
  lemma {:induction false} AddKeepsWellNamed(es: seq<Entry>, path: string, name: string, kind: string)
    requires Valid(es) && WellNamed(es) && '/' !in name
    ensures WellNamed(Add(es, path, name, kind).entries)
  {
    if Add(es, path, name, kind).status == Ok {
      var p := Resolve(es, RootId, ServerPath(path)).value;
      AttachKeepsWellNamed(es, p, name, kind == "directory");
    }
  }

  lemma {:induction false} AttachKeepsWellNamed(es: seq<Entry>, p: nat, name: string, isDirectory: bool)
    requires p < |es| && WellNamed(es) && '/' !in name
    ensures WellNamed(Attach(es, p, name, isDirectory))
  {
    var es2 := Attach(es, p, name, isDirectory);
    forall i | 0 <= i < |es2| ensures '/' !in es2[i].name {
      if i < |es| {
        assert es2[i].name == es[i].name;
      }
    }
  }

  /** A successful add leaves every path that resolved before resolving to the same node. */
  lemma {:induction false} AddKeepsPaths(es: seq<Entry>, path: string, name: string, kind: string, q: seq<string>)
    requires Valid(es) && Add(es, path, name, kind).status == Ok
    requires Resolve(es, RootId, q).Some?
    ensures Resolve(Add(es, path, name, kind).entries, RootId, q) == Resolve(es, RootId, q)
  {
    var p := Resolve(es, RootId, ServerPath(path)).value;
    AttachKeepsPaths(es, p, name, kind == "directory", RootId, q);
  }

  /** Repeating a successful add is refused as a conflict (no duplicate siblings). */
  lemma {:induction false} AddTwiceConflicts(es: seq<Entry>, path: string, name: string, kind: string)
    requires Valid(es) && Add(es, path, name, kind).status == Ok
    ensures Valid(Add(es, path, name, kind).entries)
    ensures Add(Add(es, path, name, kind).entries, path, name, kind).status == Conflict
  {
    var es2 := Add(es, path, name, kind).entries;
    var P := ServerPath(path);
    var p := Resolve(es, RootId, P).value;
    AddKeepsValid(es, path, name, kind);
    AddAppendsChild(es, path, name, kind);
    AttachKeepsPaths(es, p, name, kind == "directory", RootId, P);
    var kids2 := es2[p].children;
    assert es2[kids2[|kids2| - 1]].name == name;
    assert FirstNamed(es2, kids2, name).Some?;
    assert Resolve(es2, RootId, P) == Some(p) && es2[p].isDirectory;
  }

  // ---------------------------------------------------------------------------
  // Delete

  lemma {:induction false} DetachValid(es: seq<Entry>, p: nat, i: nat)
    requires Valid(es) && p < |es| && i < |es[p].children|
    ensures Valid(Detach(es, p, i))
  {
    DetachSiblings(es, p, i);
    DetachSingleParent(es, p, i);
  }

  /** Removing a child keeps the others' names, so sibling names stay unique. */
  lemma {:induction false} DetachSiblings(es: seq<Entry>, p: nat, i: nat)
    requires Ordered(es) && SiblingNamesUnique(es) && p < |es| && i < |es[p].children|
    ensures Ordered(Detach(es, p, i)) && SiblingNamesUnique(Detach(es, p, i))
  {
    var es2 := Detach(es, p, i);
    var kids := es[p].children;
    forall j, a, b | 0 <= j < |es2| && 0 <= a < b < |es2[j].children|
      ensures es2[es2[j].children[a]].name != es2[es2[j].children[b]].name
    {
      if j == p {
        var a', b' := if a < i then a else a + 1, if b < i then b else b + 1;
        assert es2[j].children[a] == kids[a'] && es2[j].children[b] == kids[b'];
      } else {
        assert es2[j] == es[j];
      }
    }
  }

  /** Removing a child removes an occurrence; no node gains a second parent. */
  lemma {:induction false} DetachSingleParent(es: seq<Entry>, p: nat, i: nat)
    requires SingleParent(es) && p < |es| && i < |es[p].children|
    ensures SingleParent(Detach(es, p, i))
  {
    var es2 := Detach(es, p, i);
    forall j1, j2, a, b |
      0 <= j1 < |es2| && 0 <= j2 < |es2| && 0 <= a < |es2[j1].children| && 0 <= b < |es2[j2].children| &&
      es2[j1].children[a] == es2[j2].children[b]
      ensures j1 == j2 && a == b
    {
      var a' := if j1 == p && i <= a then a + 1 else a;
      var b' := if j2 == p && i <= b then b + 1 else b;
      assert es2[j1].children[a] == es[j1].children[a'];
      assert es2[j2].children[b] == es[j2].children[b'];
    }
  }


  /** A delete keeps every tree invariant. */
  lemma {:induction false} DeleteKeepsValid(es: seq<Entry>, path: string, name: string)
    requires Valid(es)
    ensures Valid(Delete(es, path, name).entries)
  {
    if Delete(es, path, name).status == Ok {
      var p := Resolve(es, RootId, ServerPath(path)).value;
      DetachValid(es, p, FirstNamed(es, es[p].children, name).value);
    }
  }

  /** After removing child `i` of `p`, a step from `p` by any other name is unchanged,
      and a step by the removed child's name finds nothing. */
  lemma {:induction false} StepDetach(es: seq<Entry>, p: nat, i: nat, s: string)
    requires Ordered(es) && SiblingNamesUnique(es) && p < |es| && i < |es[p].children|
    ensures s != es[es[p].children[i]].name ==> Step(Detach(es, p, i), p, s) == Step(es, p, s)
    ensures s == es[es[p].children[i]].name ==> Step(Detach(es, p, i), p, s).None?
  {
    if s == es[es[p].children[i]].name {
      DetachNameGone(es, p, i);
    } else {
      StepDetachOther(es, p, i, s);
    }
  }

  /** Looking up any other name under the parent finds the same child as before. */
  lemma {:induction false} DetachShape(es: seq<Entry>, p: nat, i: nat)
    requires p < |es| && i < |es[p].children|
    ensures var es2, kids := Detach(es, p, i), es[p].children;
            && |es2| == |es| && |es2[p].children| == |kids| - 1
            && es2[p].isDirectory == es[p].isDirectory
            && (forall k :: 0 <= k < |es2[p].children| ==> es2[p].children[k] == kids[if k < i then k else k + 1])
            && (forall k :: 0 <= k < |es| ==> es2[k].name == es[k].name)
  {
  }

  lemma {:induction false} StepDetachOther(es: seq<Entry>, p: nat, i: nat, s: string)
    requires Ordered(es) && p < |es| && i < |es[p].children| && s != es[es[p].children[i]].name
    ensures Step(Detach(es, p, i), p, s) == Step(es, p, s)
  {
    var es2 := Detach(es, p, i);
    var kids := es[p].children;
    var kids2 := es2[p].children;
    DetachShape(es, p, i);
    match FirstNamed(es, kids, s)
    case None =>
      forall m | 0 <= m < |kids2| ensures es2[kids2[m]].name != s {
        assert kids2[m] == kids[if m < i then m else m + 1];
      }
    case Some(k) =>
      var k2 := if k < i then k else k - 1;
      assert kids2[k2] == kids[k];
      forall j | 0 <= j < k2 ensures es2[kids2[j]].name != s {
        assert kids2[j] == kids[if j < i then j else j + 1];
      }
      FirstNamedIs(es2, kids2, s, k2);
  }


  /** A step that is not the removed edge is the same after the removal. */
  lemma {:induction false} StepDetachAway(es: seq<Entry>, p: nat, i: nat, P: seq<string>, pre: seq<string>, x: nat, s: string)
    requires Valid(es) && p < |es| && i < |es[p].children| && x < |es|
    requires Resolve(es, RootId, P) == Some(p) && Resolve(es, RootId, pre) == Some(x)
    requires x == p ==> pre != P || s != es[es[p].children[i]].name
    ensures Step(Detach(es, p, i), x, s) == Step(es, x, s)
  {
    if x == p {
      PathUnique(es, P, pre);
      StepDetach(es, p, i, s);
    } else {
      StepDetachElsewhere(es, p, i, x, s);
    }
  }

  /** Steps from nodes other than the parent do not see the removal. */
  lemma {:induction false} StepDetachElsewhere(es: seq<Entry>, p: nat, i: nat, x: nat, s: string)
    requires Ordered(es) && p < |es| && i < |es[p].children| && x < |es| && x != p
    ensures Step(Detach(es, p, i), x, s) == Step(es, x, s)
  {
    var es2 := Detach(es, p, i);
    assert forall k :: 0 <= k < |es| ==> es2[k].name == es[k].name;
    StepFrame(es, es2, x, s);
  }

  lemma {:induction false} DetachKeepsPaths(es: seq<Entry>, p: nat, i: nat, P: seq<string>,
                                            pre: seq<string>, x: nat, q: seq<string>)
    requires Valid(es) && p < |es| && i < |es[p].children| && x < |es|
    requires Resolve(es, RootId, P) == Some(p) && Resolve(es, RootId, pre) == Some(x)
    requires !(P + [es[es[p].children[i]].name] <= pre + q)
    ensures Resolve(Detach(es, p, i), x, q) == Resolve(es, x, q)
    decreases |q|
  {
    if q != [] {
      var s := q[0];
      PrefixAvoided(P + [es[es[p].children[i]].name], pre, q);
      StepDetachAway(es, p, i, P, pre, x, s);
      var r := Step(es, x, s);
      if r.Some? {
        ResolveSnoc(es, RootId, pre, s);
        DetachKeepsPaths(es, p, i, P, pre + [s], r.value, q[1..]);
      }
    }
  }

  /** A path that does not extend `A` still does not after moving one segment from
      the suffix to the prefix, and that segment does not complete `A`. */
  lemma {:induction false} PrefixAvoided(A: seq<string>, pre: seq<string>, q: seq<string>)
    requires q != [] && !(A <= pre + q)
    ensures pre + q == (pre + [q[0]]) + q[1..]
    ensures pre + [q[0]] != A
  {
    assert pre + q == (pre + [q[0]]) + q[1..];
  }

  lemma {:induction false} DetachSplices(es: seq<Entry>, p: nat, i: nat)
    requires Valid(es) && p < |es| && i < |es[p].children|
    ensures var es2 := Detach(es, p, i);
            var kids := es[p].children;
            && Listing(es2, p) == Listing(es, p)[..i] + Listing(es, p)[i + 1..]
            && (forall j :: 0 <= j < |es2[p].children| ==> es2[es2[p].children[j]].name != es[kids[i]].name)
  {
    DetachListing(es, p, i);
    DetachNameGone(es, p, i);
  }

  /** The parent's listing loses exactly the entry at `i`. */
  lemma {:induction false} DetachListing(es: seq<Entry>, p: nat, i: nat)
    requires Ordered(es) && p < |es| && i < |es[p].children|
    ensures Listing(Detach(es, p, i), p) == Listing(es, p)[..i] + Listing(es, p)[i + 1..]
  {
    var es2 := Detach(es, p, i);
    var kids := es[p].children;
    var kids2 := es2[p].children;
    assert forall k :: 0 <= k < |kids2| ==> kids2[k] == kids[if k < i then k else k + 1];
    assert forall k :: 0 <= k < |es| ==> es2[k].name == es[k].name && es2[k].isDirectory == es[k].isDirectory;
  }

  /** Sibling names being unique, no remaining child has the removed child's name. */
  lemma {:induction false} DetachNameGone(es: seq<Entry>, p: nat, i: nat)
    requires Ordered(es) && SiblingNamesUnique(es) && p < |es| && i < |es[p].children|
    ensures var es2 := Detach(es, p, i);
            forall j :: 0 <= j < |es2[p].children| ==> es2[es2[p].children[j]].name != es[es[p].children[i]].name
  {
    var es2 := Detach(es, p, i);
    var kids := es[p].children;
    var kids2 := es2[p].children;
    forall j | 0 <= j < |kids2| ensures es2[kids2[j]].name != es[kids[i]].name {
      var j' := if j < i then j else j + 1;
      assert kids2[j] == kids[j'] && j' != i;
    }
  }


  /** A successful delete removes exactly the first child called `name` from the
      parent's children: the others keep their order, the parent's listing loses that
      one entry and no longer holds the name, and no other node changes. */
  lemma {:induction false} DeleteSplicesChild(es: seq<Entry>, path: string, name: string)
    requires Valid(es) && Delete(es, path, name).status == Ok
    ensures var es2 := Delete(es, path, name).entries;
            var p := Resolve(es, RootId, ServerPath(path)).value;
            var kids := es[p].children;
            var i := FirstNamed(es, kids, name).value;
            && es[kids[i]].name == name
            && |es2| == |es|
            && es2[p] == es[p].(children := kids[..i] + kids[i + 1..])
            && Listing(es2, p) == Listing(es, p)[..i] + Listing(es, p)[i + 1..]
            && (forall j :: 0 <= j < |es| && j != p ==> es2[j] == es[j])
            && (forall j :: 0 <= j < |es2[p].children| ==> es2[es2[p].children[j]].name != name)
  {
    var p := Resolve(es, RootId, ServerPath(path)).value;
    DetachSplices(es, p, FirstNamed(es, es[p].children, name).value);
  }

  /** A delete renames nothing, so it keeps every name free of '/'. */
  lemma {:induction false} DeleteKeepsWellNamed(es: seq<Entry>, path: string, name: string)
    requires Valid(es) && WellNamed(es)
    ensures WellNamed(Delete(es, path, name).entries)
  {
    var es2 := Delete(es, path, name).entries;
    forall i | 0 <= i < |es2| ensures '/' !in es2[i].name {
      assert es2[i].name == es[i].name;
    }
  }

  /** After a successful delete, no path through the removed node resolves any more:
      the whole subtree is gone. */
  lemma {:induction false} DeleteRemovesSubtree(es: seq<Entry>, path: string, name: string, rest: seq<string>)
    requires Valid(es) && Delete(es, path, name).status == Ok
    ensures Resolve(Delete(es, path, name).entries, RootId, ServerPath(path) + [name] + rest).None?
  {
    var P := ServerPath(path);
    var p := Resolve(es, RootId, P).value;
    var i := FirstNamed(es, es[p].children, name).value;
    DetachCutsEdge(es, p, i, P, rest);
  }

  /** What a successful delete removes is the node at the parent's path plus `name`. */
  lemma {:induction false} DeleteTarget(es: seq<Entry>, path: string, name: string)
    requires Valid(es) && Delete(es, path, name).status == Ok
    ensures var p := Resolve(es, RootId, ServerPath(path)).value;
            var i := FirstNamed(es, es[p].children, name).value;
            Resolve(es, RootId, ServerPath(path) + [name]) == Some(es[p].children[i])
  {
    ResolveSnoc(es, RootId, ServerPath(path), name);
  }

  lemma {:induction false} DetachCutsEdge(es: seq<Entry>, p: nat, i: nat, P: seq<string>, rest: seq<string>)
    requires Valid(es) && p < |es| && i < |es[p].children|
    requires Resolve(es, RootId, P) == Some(p)
    ensures Resolve(Detach(es, p, i), RootId, P + [es[es[p].children[i]].name] + rest).None?
  {
    var es2 := Detach(es, p, i);
    var name := es[es[p].children[i]].name;
    assert [] + P == P;
    DetachKeepsPaths(es, p, i, P, [], RootId, P);
    StepDetach(es, p, i, name);
    ResolveThroughMissing(es2, P, p, name, rest);
  }

  /** A walk whose next segment is missing goes no further. */
  lemma {:induction false} ResolveThroughMissing(es: seq<Entry>, P: seq<string>, x: nat, s: string, rest: seq<string>)
    requires Ordered(es) && |es| > 0 && x < |es|
    requires Resolve(es, RootId, P) == Some(x) && Step(es, x, s).None?
    ensures Resolve(es, RootId, P + [s] + rest).None?
  {
    assert P + [s] + rest == P + ([s] + rest);
    ResolveAppend(es, RootId, P, [s] + rest);
    assert ([s] + rest)[0] == s;
  }

  /** After a successful delete, every path that does not pass through the removed
      node resolves exactly as before. */
  lemma {:induction false} DeleteKeepsOtherPaths(es: seq<Entry>, path: string, name: string, q: seq<string>)
    requires Valid(es) && Delete(es, path, name).status == Ok
    requires !(ServerPath(path) + [name] <= q)
    ensures Resolve(Delete(es, path, name).entries, RootId, q) == Resolve(es, RootId, q)
  {
    var P := ServerPath(path);
    var p := Resolve(es, RootId, P).value;
    var i := FirstNamed(es, es[p].children, name).value;
    assert [] + q == q;
    DetachKeepsPaths(es, p, i, P, [], RootId, q);
  }

  /** Deleting the same name twice: the second request finds no such item. */
  lemma {:induction false} DeleteTwiceNotFound(es: seq<Entry>, path: string, name: string)
    requires Valid(es) && Delete(es, path, name).status == Ok
    ensures Valid(Delete(es, path, name).entries)
    ensures Delete(Delete(es, path, name).entries, path, name).status == ItemNotFound
  {
    var es2 := Delete(es, path, name).entries;
    var P := ServerPath(path);
    var p := Resolve(es, RootId, P).value;
    var i := FirstNamed(es, es[p].children, name).value;
    DeleteKeepsValid(es, path, name);
    DetachKeepsPaths(es, p, i, P, [], RootId, P);
    DeleteSplicesChild(es, path, name);
  }
}
