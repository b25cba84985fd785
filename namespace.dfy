/** The server's in-memory tree of FileNode objects, as an arena: a node is named by
    its index in `entries`, the root is index 0, and a node's `children` lists the
    indices of its children in insertion order. */
module Namespace {
  import opened Paths

  datatype Option<T> = None | Some(value: T)

  /** A FileNode: `name`, `isDirectory` and the ordered `children` array. */
  datatype Entry = Entry(name: string, isDirectory: bool, children: seq<nat>)

  /** The `{ name, type }` records the server sends for a directory's children. */
  datatype Kind = File | Directory
  datatype Item = Item(name: string, kind: Kind)

  const RootId: nat := 0
  const RootName: string := "ROOT"

  /** Every child index is in the arena and greater than its parent's: the tree is
      finite and acyclic, and walking down always moves to a larger index. */
  ghost predicate Ordered(es: seq<Entry>)
  {
    forall i, k :: 0 <= i < |es| && 0 <= k < |es[i].children| ==> i < es[i].children[k] < |es|
  }

  ghost predicate FilesAreLeaves(es: seq<Entry>)
  {
    forall i :: 0 <= i < |es| && !es[i].isDirectory ==> es[i].children == []
  }

  ghost predicate NamesNonEmpty(es: seq<Entry>)
  {
    forall i :: 0 <= i < |es| ==> es[i].name != ""
  }

  /** No two children of one node share a name (exact, case-sensitive comparison). */
  ghost predicate SiblingNamesUnique(es: seq<Entry>)
    requires Ordered(es)
  {
    forall i, a, b :: 0 <= i < |es| && 0 <= a < b < |es[i].children| ==>
      es[es[i].children[a]].name != es[es[i].children[b]].name
  }

  /** A node occurs at most once in all children lists together: it has one parent. */
  ghost predicate SingleParent(es: seq<Entry>)
  {
    forall i, j, a, b ::
      (0 <= i < |es| && 0 <= j < |es| && 0 <= a < |es[i].children| && 0 <= b < |es[j].children| &&
       es[i].children[a] == es[j].children[b]) ==> i == j && a == b
  }

  /** The invariant every server state keeps. */
  ghost predicate Valid(es: seq<Entry>)
  {
    |es| > 0 && es[RootId].name == RootName && es[RootId].isDirectory &&
    Ordered(es) && FilesAreLeaves(es) && NamesNonEmpty(es) &&
    SiblingNamesUnique(es) && SingleParent(es)
  }

  /** No name in the arena contains '/', so every path survives a join and a split. */
  ghost predicate WellNamed(es: seq<Entry>)
  {
    forall i :: 0 <= i < |es| ==> '/' !in es[i].name
  }

  /** The first position in `kids` whose node is called `name` (`Array.prototype.find`
      and `findIndex` with an exact-name test). */
  function FirstNamed(es: seq<Entry>, kids: seq<nat>, name: string): (r: Option<nat>)
    requires forall k :: 0 <= k < |kids| ==> kids[k] < |es|
    ensures r.Some? ==> r.value < |kids| && es[kids[r.value]].name == name
    ensures r.Some? ==> forall j :: 0 <= j < r.value ==> es[kids[j]].name != name
    ensures r.None? ==> forall j :: 0 <= j < |kids| ==> es[kids[j]].name != name
  {
    if kids == [] then None
    else if es[kids[0]].name == name then Some(0)
    else match FirstNamed(es, kids[1..], name)
      case None => None
      case Some(i) => Some(i + 1)
  }

  /** One step of `findNodeByPath`: null below a file, else the child called `segment`. */
  function Step(es: seq<Entry>, x: nat, segment: string): (r: Option<nat>)
    requires Ordered(es) && x < |es|
    ensures r.Some? ==> es[x].isDirectory && x < r.value < |es| && es[r.value].name == segment
    ensures r.Some? ==> exists k :: 0 <= k < |es[x].children| && es[x].children[k] == r.value
  {
    if !es[x].isDirectory then None
    else match FirstNamed(es, es[x].children, segment)
      case None => None
      case Some(k) => Some(es[x].children[k])
  }

  /** The node reached from `x` by following the segments of `p` by exact name. */
  function Resolve(es: seq<Entry>, x: nat, p: seq<string>): (r: Option<nat>)
    requires Ordered(es) && x < |es|
    ensures p == [] ==> r == Some(x)
    ensures r.Some? ==> x <= r.value < |es|
    ensures r.Some? && p != [] ==> x < r.value && es[r.value].name == p[|p| - 1]
    decreases |p|
  {
    if p == [] then Some(x)
    else match Step(es, x, p[0])
      case None => None
      case Some(c) => Resolve(es, c, p[1..])
  }

  /** The path names a directory of the tree. */
  ghost predicate IsDirAt(es: seq<Entry>, p: seq<string>)
    requires Ordered(es) && |es| > 0
  {
    Resolve(es, RootId, p).Some? && es[Resolve(es, RootId, p).value].isDirectory
  }

  function ItemOf(e: Entry): Item
  {
    Item(e.name, if e.isDirectory then Directory else File)
  }

  /** `node.children.map(child => ({ name: child.name, type: ... }))` */
  function Listing(es: seq<Entry>, x: nat): (r: seq<Item>)
    requires Ordered(es) && x < |es|
    ensures |r| == |es[x].children|
  {
    var kids := es[x].children;
    seq(|kids|, i requires 0 <= i < |kids| => ItemOf(es[kids[i]]))
  }

  /** Item `i` of a listing is child `i`'s name and kind. */
  lemma {:induction false} ListingItems(es: seq<Entry>, x: nat)
    requires Ordered(es) && x < |es|
    ensures forall i :: 0 <= i < |Listing(es, x)| ==> Listing(es, x)[i] == ItemOf(es[es[x].children[i]])
  {
  }

  // ---------------------------------------------------------------------------
  // Facts about resolution

  /** Among unique sibling names, a position holding `name` is the first one. */
  lemma {:induction false} FirstNamedAt(es: seq<Entry>, x: nat, k: nat)
    requires Valid(es) && x < |es| && k < |es[x].children|
    ensures FirstNamed(es, es[x].children, es[es[x].children[k]].name) == Some(k)
  {
  }

  /** A step from a directory by the name of one of its children reaches that child. */
  lemma {:induction false} StepFinds(es: seq<Entry>, x: nat, k: nat)
    requires Valid(es) && x < |es| && es[x].isDirectory && k < |es[x].children|
    ensures Step(es, x, es[es[x].children[k]].name) == Some(es[x].children[k])
  {
    FirstNamedAt(es, x, k);
  }

  /** A step taken after new children were appended to `x` (all of them new nodes)
      that reaches an old node reaches it before the append too. */
  lemma {:induction false} StepBackOld(es: seq<Entry>, es2: seq<Entry>, x: nat, s: string)
    requires Valid(es) && Ordered(es2) && x < |es| <= |es2| && es[x].isDirectory
    requires es[x].children <= es2[x].children
    requires forall k :: |es[x].children| <= k < |es2[x].children| ==> es2[x].children[k] >= |es|
    requires forall i :: 0 <= i < |es| ==> es2[i].name == es[i].name
    requires Step(es2, x, s).Some? && Step(es2, x, s).value < |es|
    ensures Step(es, x, s) == Step(es2, x, s)
  {
    var c := Step(es2, x, s).value;
    var k :| 0 <= k < |es2[x].children| && es2[x].children[k] == c;
    assert k < |es[x].children|;
    assert es[x].children[k] == c;
    StepFinds(es, x, k);
  }

  /** The same for a walk of one segment from the root. */
  lemma {:induction false} ResolveBackOld(es: seq<Entry>, es2: seq<Entry>, n: string)
    requires Valid(es) && Ordered(es2) && |es| <= |es2|
    requires es[RootId].children <= es2[RootId].children
    requires forall k :: |es[RootId].children| <= k < |es2[RootId].children| ==> es2[RootId].children[k] >= |es|
    requires forall i :: 0 <= i < |es| ==> es2[i].name == es[i].name
    requires Resolve(es2, RootId, [n]).Some? && Resolve(es2, RootId, [n]).value < |es|
    ensures Resolve(es, RootId, [n]) == Resolve(es2, RootId, [n])
  {
    assert [n][1..] == [];
    StepBackOld(es, es2, RootId, n);
  }

  /** A scan that finds `name` at `i` and nowhere before has found the first match. */
  lemma {:induction false} FirstNamedIs(es: seq<Entry>, kids: seq<nat>, name: string, i: nat)
    requires forall k :: 0 <= k < |kids| ==> kids[k] < |es|
    requires i < |kids| && es[kids[i]].name == name
    requires forall j :: 0 <= j < i ==> es[kids[j]].name != name
    ensures FirstNamed(es, kids, name) == Some(i)
  {
  }

  /** Walking a concatenation is walking the first part, then the second. */
  lemma {:induction false} ResolveAppend(es: seq<Entry>, x: nat, a: seq<string>, b: seq<string>)
    requires Ordered(es) && x < |es|
    ensures Resolve(es, x, a + b) ==
      match Resolve(es, x, a)
      case None => None
      case Some(y) => Resolve(es, y, b)
    decreases |a|
  {
    if a == [] {
      assert a + b == b;
    } else {
      assert (a + b)[0] == a[0];
      assert (a + b)[1..] == a[1..] + b;
      match Step(es, x, a[0])
      case None =>
      case Some(c) => ResolveAppend(es, c, a[1..], b);
    }
  }

  /** Walking one more segment is one more Step. */
  lemma {:induction false} ResolveSnoc(es: seq<Entry>, x: nat, p: seq<string>, s: string)
    requires Ordered(es) && x < |es|
    ensures Resolve(es, x, p + [s]) ==
      match Resolve(es, x, p)
      case None => None
      case Some(y) => Step(es, y, s)
  {
    ResolveAppend(es, x, p, [s]);
    match Resolve(es, x, p)
    case None =>
    case Some(y) =>
      match Step(es, y, s)
      case None =>
      case Some(c) => assert [s][1..] == [];
  }

  /** A walk that goes on past `p` passed through a directory at `p`. */
  lemma {:induction false} ResolvePrefixIsDirectory(es: seq<Entry>, p: seq<string>, q: seq<string>)
    requires Ordered(es) && |es| > 0
    requires q != [] && Resolve(es, RootId, p + q).Some?
    ensures IsDirAt(es, p)
  {
    ResolveAppend(es, RootId, p, q);
  }

  /** Every segment of a path that resolves is the name of a node. */
  lemma {:induction false} ResolvedSegments(es: seq<Entry>, x: nat, p: seq<string>)
    requires Valid(es) && x < |es| && Resolve(es, x, p).Some?
    ensures NonEmptySegments(p)
    ensures WellNamed(es) ==> SlashFree(p)
    decreases |p|
  {
    if p != [] {
      var c := Step(es, x, p[0]).value;
      ResolvedSegments(es, c, p[1..]);
      assert p == [p[0]] + p[1..];
    }
  }

  /** In a valid tree, a node is reached from the root by exactly one path. */
  lemma {:induction false} PathUnique(es: seq<Entry>, a: seq<string>, b: seq<string>)
    requires Valid(es)
    requires Resolve(es, RootId, a).Some? && Resolve(es, RootId, a) == Resolve(es, RootId, b)
    ensures a == b
    decreases |a| + |b|
  {
    if a == [] || b == [] {
      RootOnlyAtEmptyPath(es, a, b);
    } else {
      LastStepUnique(es, a, b);
      PathUnique(es, a[..|a| - 1], b[..|b| - 1]);
      SameFrontSameLast(a, b);
    }
  }

  lemma {:induction false} SameFrontSameLast(a: seq<string>, b: seq<string>)
    requires a != [] && b != [] && a[..|a| - 1] == b[..|b| - 1] && a[|a| - 1] == b[|b| - 1]
    ensures a == b
  {
    assert a == a[..|a| - 1] + [a[|a| - 1]];
    assert b == b[..|b| - 1] + [b[|b| - 1]];
  }

  /** Only the empty walk stays at the root. */
  lemma {:induction false} RootOnlyAtEmptyPath(es: seq<Entry>, a: seq<string>, b: seq<string>)
    requires Ordered(es) && |es| > 0 && (a == [] || b == [])
    requires Resolve(es, RootId, a).Some? && Resolve(es, RootId, a) == Resolve(es, RootId, b)
    ensures a == b
  {
  }

  /** Two walks that end at the same node took their last step from the same node by
      the same name. */
  lemma {:induction false} LastStepUnique(es: seq<Entry>, a: seq<string>, b: seq<string>)
    requires Valid(es) && a != [] && b != []
    requires Resolve(es, RootId, a).Some? && Resolve(es, RootId, a) == Resolve(es, RootId, b)
    ensures Resolve(es, RootId, a[..|a| - 1]).Some?
    ensures Resolve(es, RootId, a[..|a| - 1]) == Resolve(es, RootId, b[..|b| - 1])
    ensures a[|a| - 1] == b[|b| - 1]
  {
    ResolveLast(es, a);
    ResolveLast(es, b);
    var u := Resolve(es, RootId, a[..|a| - 1]).value;
    var v := Resolve(es, RootId, b[..|b| - 1]).value;
    SameChildSameParent(es, u, v, a[|a| - 1], b[|b| - 1]);
  }

  /** A walk that ends somewhere took its last step from where the walk without its
      last segment ends. */
  lemma {:induction false} ResolveLast(es: seq<Entry>, p: seq<string>)
    requires Ordered(es) && |es| > 0 && p != [] && Resolve(es, RootId, p).Some?
    ensures Resolve(es, RootId, p[..|p| - 1]).Some?
    ensures Step(es, Resolve(es, RootId, p[..|p| - 1]).value, p[|p| - 1]) == Resolve(es, RootId, p)
  {
    var p' := p[..|p| - 1];
    assert p == p' + [p[|p| - 1]];
    ResolveSnoc(es, RootId, p', p[|p| - 1]);
  }

  lemma {:induction false} SameChildSameParent(es: seq<Entry>, u: nat, v: nat, s: string, t: string)
    requires Valid(es) && u < |es| && v < |es|
    requires Step(es, u, s).Some? && Step(es, u, s) == Step(es, v, t)
    ensures u == v && s == t
  {
    var y := Step(es, u, s).value;
    var ka :| 0 <= ka < |es[u].children| && es[u].children[ka] == y;
    var kb :| 0 <= kb < |es[v].children| && es[v].children[kb] == y;
    assert SingleParent(es);
  }
}
