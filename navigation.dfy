/** The browser client's navigation state: `currentPath`, the segments from the root to
    the directory on screen, the handlers that replace it, and what the client sends
    to and reads from the server at that path. */
module Navigation {
  import opened Paths
  import opened Namespace
  import opened Handlers
  import opened Flatten
  import opened Server

  /** What `fileSystem[key]` yields on the object the client parsed from the server's
      JSON: an own key's item array, or a property every object inherits. */
  datatype Lookup = Listed(items: seq<Item>) | Inherited(name: string)

  /** `getCurrentItems()`: `fileSystem[getCurrentPathString()] || []`, where
      `getCurrentPathString()` is `currentPath.join("/")`. A key the server did not
      send is `undefined`, hence `[]`, unless an object inherits it: then the
      inherited property, which is never falsy, is what comes back. */
  function CurrentItems(fs: FileSystem, path: seq<string>): (r: Lookup)
    ensures r.Inherited? <==> Join(path) !in fs && Join(path) in ProtoKeys
    ensures r.Inherited? ==> r.name == Join(path)
    ensures r.Listed? ==> r.items == Get(fs, Join(path))
  {
    var key := Join(path);
    if key in fs then Listed(fs[key])
    else if key in ProtoKeys then Inherited(key)
    else Listed([])
  }

  /** The inherited properties that are functions declared without parameters, so
      `length` is 0. The other inherited properties are functions with a positive
      `length`, or `Object.prototype` itself (at `__proto__`) with no `length`. */
  const ZeroLength: set<string> := {"toString", "valueOf", "toLocaleString"}

  /** The content area: "This directory is empty" when `length === 0`, a card per item
      otherwise; `.map` on anything but an array throws while rendering. */
  datatype Screen = EmptyMessage | Cards(items: seq<Item>) | RenderFails

  function Render(l: Lookup): (r: Screen)
    ensures r.Cards? ==> l == Listed(r.items) && r.items != []
    ensures r == EmptyMessage <==> l == Listed([]) || (l.Inherited? && l.name in ZeroLength)
    ensures r == RenderFails <==> l.Inherited? && l.name !in ZeroLength
  {
    match l
    case Listed(items) => if items == [] then EmptyMessage else Cards(items)
    case Inherited(name) => if name in ZeroLength then EmptyMessage else RenderFails
  }

  /** The items that have a card on screen. */
  function OnScreen(s: Screen): (r: seq<Item>)
    ensures s.Cards? ==> r == s.items
    ensures !s.Cards? ==> r == []
  {
    if s.Cards? then s.items else []
  }

  /** The items on screen at `path`. */
  function Shown(fs: FileSystem, path: seq<string>): (r: seq<Item>)
    ensures CurrentItems(fs, path).Listed? ==> r == CurrentItems(fs, path).items
    ensures CurrentItems(fs, path).Inherited? ==> r == []
  {
    OnScreen(Render(CurrentItems(fs, path)))
  }

  /** `navigateToDirectory(dirName)`: `[...currentPath, dirName]`. */
  function NavigateToDirectory(path: seq<string>, dirName: string): (r: seq<string>)
    ensures |r| == |path| + 1 && r[..|path|] == path && r[|path|] == dirName
  {
    path + [dirName]
  }

  /** `navigateToParent()`: drop the last segment; at the root nothing changes. */
  function NavigateToParent(path: seq<string>): (r: seq<string>)
    ensures path == [] ==> r == []
    ensures path != [] ==> |r| == |path| - 1 && r <= path
  {
    if |path| > 0 then path[..|path| - 1] else path
  }

  /** `navigateToBreadcrumb(index)`: `currentPath.slice(0, index + 1)`; `slice` stops at
      the end of the array when `index + 1` is past it. */
  function NavigateToBreadcrumb(path: seq<string>, index: nat): (r: seq<string>)
    ensures r <= path
    ensures |r| == if index + 1 <= |path| then index + 1 else |path|
  {
    if index + 1 <= |path| then path[..index + 1] else path
  }

  /** The click handler on an item of the listing:
      `item.type === "directory" && navigateToDirectory(item.name)`. */
  function OpenItem(path: seq<string>, item: Item): (r: seq<string>)
    ensures item.kind == File ==> r == path
    ensures item.kind == Directory ==> r == NavigateToDirectory(path, item.name)
  {
    if item.kind == Directory then NavigateToDirectory(path, item.name) else path
  }

  /** What the user can do to `currentPath`: the Root button, a breadcrumb, "Go to
      Parent", or a click on an item. */
  datatype Action = GoRoot | Crumb(index: nat) | GoParent | Open(item: Item)

  function Apply(path: seq<string>, a: Action): seq<string>
  {
    match a
    case GoRoot => []
    case Crumb(i) => NavigateToBreadcrumb(path, i)
    case GoParent => NavigateToParent(path)
    case Open(item) => OpenItem(path, item)
  }

  function Run(path: seq<string>, actions: seq<Action>): seq<string>
    decreases |actions|
  {
    if actions == [] then path else Run(Apply(path, actions[0]), actions[1..])
  }

  /** What the screen offers: one breadcrumb per segment of the path, and a card per
      item on screen. */
  ghost predicate Offered(fs: FileSystem, path: seq<string>, a: Action)
  {
    match a
    case Crumb(i) => i < |path|
    case Open(item) => item in Shown(fs, path)
    case _ => true
  }

  ghost predicate AllOffered(fs: FileSystem, path: seq<string>, actions: seq<Action>)
    decreases |actions|
  {
    actions == [] ||
    (Offered(fs, path, actions[0]) && AllOffered(fs, Apply(path, actions[0]), actions[1..]))
  }

  // ---------------------------------------------------------------------------
  // The name guard of handleAddItem

  /** The characters `String.prototype.trim` removes: the WhiteSpace and LineTerminator
      code points of ECMAScript. */
  predicate IsWhiteSpace(c: char)
  {
    c == '\t' || c == '\n' || c == '\U{000B}' || c == '\U{000C}' || c == '\r' || c == ' ' ||
    c == '\U{00A0}' || c == '\U{1680}' || ('\U{2000}' <= c <= '\U{200A}') ||
    c == '\U{2028}' || c == '\U{2029}' || c == '\U{202F}' || c == '\U{205F}' ||
    c == '\U{3000}' || c == '\U{FEFF}'
  }

  function TrimStart(s: string): (r: string)
    ensures |r| <= |s| && r == s[|s| - |r|..]
    ensures r != [] ==> !IsWhiteSpace(r[0])
    ensures forall i :: 0 <= i < |s| - |r| ==> IsWhiteSpace(s[i])
  {
    if s != [] && IsWhiteSpace(s[0]) then
      var r := TrimStart(s[1..]);
      assert forall i :: 1 <= i < |s| - |r| ==> s[i] == s[1..][i - 1];
      r
    else s
  }

  function TrimEnd(s: string): (r: string)
    ensures r <= s
    ensures r != [] ==> !IsWhiteSpace(r[|r| - 1])
    ensures forall i :: |r| <= i < |s| ==> IsWhiteSpace(s[i])
  {
    if s != [] && IsWhiteSpace(s[|s| - 1]) then TrimEnd(s[..|s| - 1]) else s
  }

  /** `s.trim()`: the part of `s` between leading and trailing white space. */
  function Trim(s: string): (r: string)
    ensures r <= TrimStart(s)
    ensures r != [] ==> !IsWhiteSpace(r[0]) && !IsWhiteSpace(r[|r| - 1])
    ensures r == [] <==> forall i :: 0 <= i < |s| ==> IsWhiteSpace(s[i])
  {
    TrimEnd(TrimStart(s))
  }

  /** The guard of `handleAddItem`: `!newItemName.trim()` refuses the name, and the
      name is sent as typed, untrimmed. */
  predicate NameAccepted(name: string): (r: bool)
    ensures !r <==> forall i :: 0 <= i < |name| ==> IsWhiteSpace(name[i])
  {
    Trim(name) != ""
  }

  // ---------------------------------------------------------------------------
  // The path state machine

  /** Going into a directory and back up returns to where the user was. */
  lemma {:induction false} ParentAfterDirectory(path: seq<string>, dirName: string)
    ensures NavigateToParent(NavigateToDirectory(path, dirName)) == path
  {
    assert (path + [dirName])[..|path|] == path;
  }

  /** Clicking a breadcrumb twice is clicking it once, and the last breadcrumb stays put. */
  lemma {:induction false} BreadcrumbSettles(path: seq<string>, index: nat)
    ensures NavigateToBreadcrumb(NavigateToBreadcrumb(path, index), index) == NavigateToBreadcrumb(path, index)
    ensures path != [] ==> NavigateToBreadcrumb(path, |path| - 1) == path
  {
    assert path[..|path|] == path;
  }

  /** The client's path survives the trip to the server: for segments that are non-empty
      and free of '/', `path.split('/')` of the joined string gives them back, and the
      empty path goes to the root through the `path ? ... : []` guard. */
  lemma {:induction false} RequestPathRoundTrip(path: seq<string>)
    requires WellFormedPath(path)
    ensures ServerPath(Join(path)) == path
    ensures path == [] <==> Join(path) == ""
  {
    if path != [] {
      assert path[0] != "";
    }
    ServerPathJoin(path);
    JoinEmpty(path);
  }

  // ---------------------------------------------------------------------------
  // The client's map and the server's tree

  /** `fetchFileSystem()`: the map the server sent replaces the client's when the
      answer says `success`; after a 500 the client keeps the map it had. */
  function Refresh(fs: FileSystem, served: Option<FileSystem>): (r: FileSystem)
    ensures served.Some? ==> r == served.value
    ensures served.None? ==> r == fs
  {
    if served.Some? then served.value else fs
  }

  /** The listing of the directory `path` names, or nothing when it names none. */
  ghost function DirListing(es: seq<Entry>, path: seq<string>): seq<Item>
    requires Valid(es)
  {
    if IsDirAt(es, path) then Listing(es, Resolve(es, RootId, path).value) else []
  }

  /** With the map the server sends, the items on screen are the listing of the
      directory the path names, and nothing when the path names no directory. When the
      path joins to an inherited name, the lookup yields the inherited property instead
      of the server's (necessarily empty) listing, and rendering fails unless that
      property's `length` is 0. */
  lemma {:induction false} CurrentItemsMatchServer(es: seq<Entry>, fs: FileSystem, path: seq<string>)
    requires Valid(es) && WellNamed(es) && WellFormedPath(path) && ServedFileSystem(es) == Some(fs)
    ensures CurrentItems(fs, path) ==
      if Join(path) in ProtoKeys then Inherited(Join(path)) else Listed(DirListing(es, path))
    ensures Shown(fs, path) == DirListing(es, path)
    ensures Render(CurrentItems(fs, path)) == RenderFails <==> Join(path) in ProtoKeys && Join(path) !in ZeroLength
  {
    RequestPathRoundTrip(path);
    ServedAgrees(es, fs, Join(path));
    if Join(path) in ProtoKeys && IsDirAt(es, path) {
      JoinInherited(path);
      ServedInheritedEmpty(es, Join(path));
    }
  }

  /** At the root the client shows the root's children, whatever their names. */
  lemma {:induction false} RootShowsRootListing(es: seq<Entry>, fs: FileSystem)
    requires Valid(es) && ServedFileSystem(es) == Some(fs)
    ensures CurrentItems(fs, []) == Listed(Listing(es, RootId))
    ensures Shown(fs, []) == Listing(es, RootId)
  {
    assert Join([]) == "";
    ServedRootKey(es, fs);
  }

  /** Every offered action leads from a directory to a directory: breadcrumbs and
      "Go to Parent" keep a prefix, and only directory items are entered. */
  lemma {:induction false} NavigationStaysInDirectories(es: seq<Entry>, fs: FileSystem, path: seq<string>, a: Action)
    requires Valid(es) && WellNamed(es) && IsDirAt(es, path) && ServedFileSystem(es) == Some(fs)
    requires Offered(fs, path, a)
    ensures IsDirAt(es, Apply(path, a))
  {
    match a
    case GoRoot =>
    case Crumb(i) => PrefixIsDirectory(es, path, NavigateToBreadcrumb(path, i));
    case GoParent => PrefixIsDirectory(es, path, NavigateToParent(path));
    case Open(item) => OpenStaysInDirectories(es, fs, path, item);
  }

  lemma {:induction false} PrefixIsDirectory(es: seq<Entry>, path: seq<string>, pre: seq<string>)
    requires Valid(es) && IsDirAt(es, path) && pre <= path
    ensures IsDirAt(es, pre)
  {
    if pre != path {
      var q := path[|pre|..];
      assert path == pre + q;
      ResolvePrefixIsDirectory(es, pre, q);
    }
  }

  lemma {:induction false} OpenStaysInDirectories(es: seq<Entry>, fs: FileSystem, path: seq<string>, item: Item)
    requires Valid(es) && WellNamed(es) && IsDirAt(es, path) && ServedFileSystem(es) == Some(fs)
    requires item in Shown(fs, path)
    ensures IsDirAt(es, OpenItem(path, item))
  {
    var d := Resolve(es, RootId, path).value;
    ResolvedSegments(es, RootId, path);
    CurrentItemsMatchServer(es, fs, path);
    var kids := es[d].children;
    var k :| 0 <= k < |kids| && Listing(es, d)[k] == item;
    if item.kind == Directory {
      FirstNamedAt(es, d, k);
      ResolveSnoc(es, RootId, path, item.name);
    }
  }

  /** Any sequence of offered actions, starting in a directory, ends in a directory. */
  lemma {:induction false} RunStaysInDirectories(es: seq<Entry>, fs: FileSystem, path: seq<string>, actions: seq<Action>)
    requires Valid(es) && WellNamed(es) && IsDirAt(es, path) && ServedFileSystem(es) == Some(fs)
    requires AllOffered(fs, path, actions)
    ensures IsDirAt(es, Run(path, actions))
    decreases |actions|
  {
    if actions != [] {
      NavigationStaysInDirectories(es, fs, path, actions[0]);
      RunStaysInDirectories(es, fs, Apply(path, actions[0]), actions[1..]);
    }
  }

  // ---------------------------------------------------------------------------
  // Requests issued from the current directory

  /** An add the client lets through, issued from a directory, is refused by the
      server only as a duplicate, and exactly when an item on screen has the name. */
  lemma {:induction false} AddFromCurrentDirectory(es: seq<Entry>, fs: FileSystem, path: seq<string>, name: string, kind: string)
    requires Valid(es) && WellNamed(es) && IsDirAt(es, path) && ServedFileSystem(es) == Some(fs)
    requires NameAccepted(name) && (kind == "file" || kind == "directory")
    ensures var o := Add(es, Join(path), name, kind);
            var items := Shown(fs, path);
            && (o.status == Ok || o.status == Conflict)
            && (o.status == Conflict <==> exists i :: 0 <= i < |items| && items[i].name == name)
  {
    ResolvedSegments(es, RootId, path);
    RequestPathRoundTrip(path);
    CurrentItemsMatchServer(es, fs, path);
    AddAtDirectory(es, Join(path), name, kind);
    var d := Resolve(es, RootId, path).value;
    assert Shown(fs, path) == Listing(es, d);
    NameListed(es, d, name);
  }

  /** A child of `d` has the name exactly when the listing of `d` shows it. */
  lemma {:induction false} NameListed(es: seq<Entry>, d: nat, name: string)
    requires Ordered(es) && d < |es|
    ensures (exists k :: 0 <= k < |es[d].children| && es[es[d].children[k]].name == name) <==>
            (exists i :: 0 <= i < |Listing(es, d)| && Listing(es, d)[i].name == name)
  {
    var items := Listing(es, d);
    if exists k :: 0 <= k < |es[d].children| && es[es[d].children[k]].name == name {
      var k :| 0 <= k < |es[d].children| && es[es[d].children[k]].name == name;
      assert items[k].name == name;
    }
    if exists i :: 0 <= i < |items| && items[i].name == name {
      var i :| 0 <= i < |items| && items[i].name == name;
      assert es[es[d].children[i]].name == name;
    }
  }

  /** After a successful add from the client and the refresh that follows it, the new
      item is shown last in the current directory, after the items that were there;
      but when the directory's path is an inherited name, the server answers 500 from
      then on and the client keeps the map it had. */
  lemma {:induction false} AddShowsAfterRefresh(es: seq<Entry>, fs: FileSystem, path: seq<string>, name: string, kind: string)
    requires Valid(es) && WellNamed(es) && IsDirAt(es, path) && '/' !in name && ServedFileSystem(es) == Some(fs)
    requires Add(es, Join(path), name, kind).status == Ok
    ensures Valid(Add(es, Join(path), name, kind).entries) && WellNamed(Add(es, Join(path), name, kind).entries)
    ensures ServedFileSystem(Add(es, Join(path), name, kind).entries).None? <==> Join(path) in ProtoKeys
    ensures var fs2 := Refresh(fs, ServedFileSystem(Add(es, Join(path), name, kind).entries));
            && (Join(path) in ProtoKeys ==> fs2 == fs)
            && (Join(path) !in ProtoKeys ==>
                  CurrentItems(fs2, path) == Listed(Shown(fs, path) + [Item(name, if kind == "directory" then Directory else File)]))
  {
    var es2 := Add(es, Join(path), name, kind).entries;
    ResolvedSegments(es, RootId, path);
    RequestPathRoundTrip(path);
    AddChildAt(es, path, name, kind);
    AddRefreshFails(es, Join(path), name, kind);
    CurrentItemsMatchServer(es, fs, path);
    if ServedFileSystem(es2).Some? {
      CurrentItemsMatchServer(es2, ServedFileSystem(es2).value, path);
    }
  }

  /** A successful add at `path`, seen from the node at `path`. */
  lemma {:induction false} AddChildAt(es: seq<Entry>, path: seq<string>, name: string, kind: string)
    requires Valid(es) && WellNamed(es) && '/' !in name && ServerPath(Join(path)) == path
    requires Add(es, Join(path), name, kind).status == Ok
    ensures var es2 := Add(es, Join(path), name, kind).entries;
            var d := Resolve(es, RootId, path).value;
            && Valid(es2) && WellNamed(es2)
            && Resolve(es2, RootId, path) == Resolve(es, RootId, path)
            && es2[d].isDirectory
            && Listing(es2, d) == Listing(es, d) + [Item(name, if kind == "directory" then Directory else File)]
  {
    AddKeepsValid(es, Join(path), name, kind);
    AddKeepsWellNamed(es, Join(path), name, kind);
    AddAppendsChild(es, Join(path), name, kind);
    AddKeepsPaths(es, Join(path), name, kind, path);
  }

  /** Deleting an item on screen always succeeds, the server keeps answering, and after
      the refresh the current directory shows the other items in their order and
      nothing with that name. */
  lemma {:induction false} DeleteFromCurrentDirectory(es: seq<Entry>, fs: FileSystem, path: seq<string>, item: Item)
    requires Valid(es) && WellNamed(es) && IsDirAt(es, path) && ServedFileSystem(es) == Some(fs)
    requires item in Shown(fs, path)
    ensures Delete(es, Join(path), item.name).status == Ok
    ensures Valid(Delete(es, Join(path), item.name).entries) && WellNamed(Delete(es, Join(path), item.name).entries)
    ensures ServedFileSystem(Delete(es, Join(path), item.name).entries).Some?
    ensures var items := Shown(fs, path);
            var l2 := CurrentItems(ServedFileSystem(Delete(es, Join(path), item.name).entries).value, path);
            && l2.Listed?
            && (exists i :: 0 <= i < |items| && items[i] == item && l2.items == items[..i] + items[i + 1..])
            && (forall j :: 0 <= j < |l2.items| ==> l2.items[j].name != item.name)
  {
    var d := Resolve(es, RootId, path).value;
    ResolvedSegments(es, RootId, path);
    RequestPathRoundTrip(path);
    CurrentItemsMatchServer(es, fs, path);
    var items := Listing(es, d);
    assert Shown(fs, path) == items;
    var k :| 0 <= k < |items| && items[k] == item;
    DeleteChildAt(es, path, d, k);
    var es2 := Delete(es, Join(path), item.name).entries;
    DeleteKeepsServed(es, Join(path), item.name);
    var fs2 := ServedFileSystem(es2).value;
    CurrentItemsMatchServer(es2, fs2, path);
    var items2 := Listing(es2, d);
    assert CurrentItems(fs2, path) == Listed(items2);
    assert items2 == items[..k] + items[k + 1..];
  }

  /** Deleting child `k` of the directory `d` at `path`, by name, from the client. */
  lemma {:induction false} DeleteChildAt(es: seq<Entry>, path: seq<string>, d: nat, k: nat)
    requires Valid(es) && WellNamed(es) && ServerPath(Join(path)) == path
    requires Resolve(es, RootId, path) == Some(d) && k < |es[d].children|
    ensures var name := es[es[d].children[k]].name;
            var o := Delete(es, Join(path), name);
            && o.status == Ok && Valid(o.entries) && WellNamed(o.entries)
            && Resolve(o.entries, RootId, path) == Some(d) && IsDirAt(o.entries, path)
            && Listing(o.entries, d) == Listing(es, d)[..k] + Listing(es, d)[k + 1..]
            && (forall j :: 0 <= j < |Listing(o.entries, d)| ==> Listing(o.entries, d)[j].name != name)
  {
    var name := es[es[d].children[k]].name;
    FirstNamedAt(es, d, k);
    var es2 := Delete(es, Join(path), name).entries;
    DeleteKeepsValid(es, Join(path), name);
    DeleteSplicesChild(es, Join(path), name);
    DeleteKeepsOtherPaths(es, Join(path), name, path);
    DeleteKeepsWellNamed(es, Join(path), name);
    var items2 := Listing(es2, d);
    forall j | 0 <= j < |items2| ensures items2[j].name != name {
      assert items2[j].name == es2[es2[d].children[j]].name;
    }
  }
}
