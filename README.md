# File Management System: the namespace tree and the client's path

This project models the core of a small web file manager. The Express server keeps a
tree of `FileNode` objects in memory. The tree has a `ROOT` directory; each node has a
name, an `isDirectory` flag and an ordered `children` array. The server answers four
requests:

- `/api/filesystem` flattens the tree into a map from '/'-joined directory paths to
  listings;
- `/api/directory` lists one directory;
- `/api/add` appends a file or directory to a parent;
- `/api/delete` splices a child, and with it its whole subtree, out of its parent.

The React client keeps `currentPath`, a list of segments. It moves that path with the
Root button, breadcrumbs, "Go to Parent" and clicks on directory items. It shows the
listing that the flattened map holds under the joined path.

Modules:

- `Paths` (paths.dfy): `join("/")` and `split("/")`, and their round trip.
- `Namespace` (namespace.dfy): the tree as an arena of entries. A node is its index, the
  root is index 0, and every child's index is larger than its parent's. This file also
  holds the invariant `Valid` (acyclic, files are leaves, names non-empty, sibling names
  unique, one parent per node) and path resolution `Resolve`, the specification of
  `findNodeByPath`.
- `Handlers` (handlers.dfy): the decision logic of the add and delete routes. They are
  pure functions `Add` and `Delete` that return a status (`Ok`, `BadRequest`, `NotFound`,
  `NotADirectory`, `Conflict`, `ItemNotFound`) together with the new tree. The module
  also holds the lemmas about them.
- `Flatten` (flatten.dfy): the specification of `convertToFileSystem`. It takes the
  directories in depth-first order and folds their listings into a map. The lemma
  `FlattenAgrees` ties the map to path resolution.
- `Server` (server.js as a class): `FileServer` holds the arena in a field. Its methods
  are the loops and in-place updates of the server:
  - `findNodeByPath` as a loop;
  - `children.find`, `some` and `findIndex` as a loop;
  - `push` and `splice` as updates of the arena;
  - `convertToFileSystem` as a recursion that pushes into a shared map.

  Each method is proved equal to the pure specification and to keep `Valid`.
- `Navigation` (the client component): the path state machine, `trim`, and what the
  client sees of the server's answers.
- `Sample` (sample.dfy): the tree built by `initializeSampleData`, as worked examples.

A name that contains '/' is accepted by the add route, exactly as the server does. Such
a name can give two different directories the same key in the flattened map. The lemmas
that relate the map to the tree therefore take `WellNamed` as a hypothesis: no name in the tree
contains '/'. `AddKeepsWellNamed` shows that adding a '/'-free name keeps `WellNamed`,
and deleting changes no name.

Both the server's `result` and the client's `fileSystem` are plain JavaScript objects.
A lookup on such an object also finds the properties every object inherits from
`Object.prototype` (`constructor`, `toString`, `__proto__`, and nine more: the constant
`ProtoKeys`). That matters only for a top-level directory named after one of them,
because its key is its bare name. In the model:

- `convertToFileSystem`'s test `!result[key]` sees the inherited value, so an empty
  directory of that name gets no key.
- If such a directory has a child, the `push` on the inherited value throws. GET
  `/api/filesystem` then answers 500 (`ServedFileSystem` is `None`). A successful add
  can create a new cause only at the path it adds to (`AddThrowsOnlyThere`), and a
  successful delete creates none (`DeleteThrowsOnlyBefore`, `DeleteKeepsServed`).
- In the client, `fileSystem[key] || []` then returns the inherited property. Rendering
  it fails unless that property is a function with `length` 0.

`FileSystemOf` is the flattened tree as a dictionary without inherited names.
`ServedFileSystem` is what the server actually sends.

## Model

| member | source | states |
|---|---|---|
| Namespace.FirstNamed | server.js:28 | The result is the first position among the children whose node has the name. If there is none, no child has it. |
| Namespace.Step | server.js:27-30 | A step that succeeds starts at a directory and reaches one of its children, which has that exact name and a larger index. |
| Namespace.StepFinds | server.js:27-30 | From a directory, the name of any of its children leads to that child. |
| Namespace.Listing | server.js:46-49 | The listing has one item per child. |
| Namespace.ListingItems | server.js:46-49 | Item `i` of a listing is child `i`'s name and kind, so the listing follows the children's order. |
| Namespace.Resolve | server.js:23-34 | The empty walk ends where it starts. Any other walk that succeeds ends at a node with a larger index whose name is the last segment. |
| Namespace.FirstNamedAt | server.js:121 | With unique sibling names, the position holding a name is the first match. |
| Namespace.ResolveAppend | server.js:26-31 | Walking a concatenated path is walking the first part and then the second. |
| Namespace.ResolvePrefixIsDirectory | server.js:27 | A walk that goes past a prefix passed through a directory at that prefix. |
| Namespace.ResolvedSegments | server.js:28 | Every segment of a path that resolves is non-empty, and free of '/' in a well-named tree. |
| Namespace.PathUnique | server.js:23-34 | In a valid tree, two paths that reach the same node are equal. |
| Namespace.SameChildSameParent | server.js:11-17 | A node reached by one step from two nodes has one parent and one name. |
| Paths.Split | server.js:109 | The result has at least one segment, and no segment contains '/'. |
| Paths.JoinSplit | server.js:109 | Joining the result of a split gives back the string, for every string. |
| Paths.JoinServerPath | server.js:109 | Joining the server's segment list gives back the request's path string, empty string included. |
| Paths.SplitJoin | server.js:147 | Splitting a joined non-empty list of '/'-free segments gives back the list. |
| Paths.ServerPathJoin | server.js:147 | The server's `path ? path.split('/') : []` inverts join for '/'-free lists other than `[""]`. |
| Paths.JoinEmpty | FileManagementSystem.tsx:32 | A joined path is empty exactly for `[]` and `[""]`. |
| Paths.JoinSnoc | server.js:52 | Appending a name to a path of non-empty segments gives the name at the root key, and otherwise the key followed by '/' and the name. |
| Paths.Join | FileManagementSystem.tsx:32 | A path of two or more segments joins to a string that contains '/'. |
| Paths.ServerPath | server.js:109 | The server's segment list is empty exactly for the empty string, and no segment contains '/'. |
| Handlers.Attach | server.js:125-126 | Pushing a new node onto a parent's children keeps the arena ordered. |
| Handlers.Detach | server.js:160-161 | Splicing a child out of a parent's children keeps the arena ordered. |
| Handlers.AddRejects | server.js:101-123 | Each refusal of an add holds exactly when its cause holds. BadRequest: name or type missing. NotFound: the parent path does not resolve. NotADirectory: the parent is a file. Conflict: a child already has the name. A refused add leaves the tree unchanged. |
| Handlers.AddAtDirectory | server.js:116-126 | With both fields present and a directory as parent, an add succeeds or conflicts, and it conflicts exactly when a child has the name. |
| Handlers.DeleteRejects | server.js:139-158 | Each refusal of a delete holds exactly when its cause holds. BadRequest: name missing. NotFound: the parent path does not resolve. ItemNotFound: no child has the name. A refused delete leaves the tree unchanged. |
| Handlers.Add | server.js:101-126 | A refused add leaves the tree as it was. A successful one adds exactly one node, with the given name and no children, a directory exactly when the type is 'directory'. |
| Handlers.Delete | server.js:139-161 | A refused delete leaves the tree as it was, and no delete changes the number of arena entries. |
| Handlers.AddKeepsValid | server.js:121-126 | Every add keeps the tree invariant, including unique sibling names. |
| Handlers.AttachValid | server.js:125-126 | Appending a fresh, non-empty name under a directory that lacks it keeps the invariant. |
| Handlers.AttachSiblings | server.js:121-126 | Appending a name no sibling has keeps sibling names unique. |
| Handlers.AttachSingleParent | server.js:125-126 | After an append every node still has at most one parent, and the new node is a child of the parent it was pushed to, so it has exactly one. |
| Handlers.AttachKeepsPaths | server.js:125-126 | After an append, every path that resolved before resolves to the same node. |
| Handlers.AttachStep | server.js:125-126 | After an append, the new name under the parent leads to the new node. |
| Handlers.AttachListing | server.js:46-49 | After an append, the parent's listing is the old one with the new item at the end. |
| Handlers.AddAppendsChild | server.js:125-126 | A successful add appends exactly one node to the parent's children and changes no other node. The new node has the given name and no children, and is a directory exactly when the type is 'directory'. The new path resolves to it. |
| Handlers.AddKeepsWellNamed | server.js:125 | Adding a name without '/' keeps every name free of '/'. |
| Handlers.DeleteKeepsWellNamed | server.js:160-161 | A delete keeps every name free of '/'. |
| Handlers.AttachResolveOld | server.js:125-126 | After an append, a one-segment walk that ends at an old node ended there before the append too. |
| Handlers.AddKeepsPaths | server.js:125-126 | A successful add moves no existing node: every path that resolved still resolves to the same node. |
| Handlers.AddTwiceConflicts | server.js:121-123 | Repeating a successful add gets a conflict. |
| Handlers.FirstNamedFrame | server.js:28 | A name search among the same children gives the same answer when no child's name changed. |
| Handlers.StepFrame | server.js:26-31 | A step from an unchanged node gives the same answer when no name changed. |
| Handlers.DeleteKeepsValid | server.js:154-161 | Every delete keeps the tree invariant. |
| Handlers.DetachValid | server.js:160-161 | Splicing out any child keeps the invariant. |
| Handlers.DetachSiblings | server.js:160-161 | Splicing out a child keeps sibling names unique. |
| Handlers.DetachSingleParent | server.js:160-161 | Splicing out a child keeps every node with at most one parent. |
| Handlers.StepDetach | server.js:154-161 | After a splice, the removed name is no longer found under the parent, and every other name finds the same child as before. |
| Handlers.StepDetachOther | server.js:154-161 | After a splice, a name other than the removed one finds the same child as before. |
| Handlers.StepDetachAway | server.js:160-161 | A step that does not follow the removed edge is unchanged by the splice. |
| Handlers.StepDetachElsewhere | server.js:160-161 | Steps from nodes other than the parent are unchanged by the splice. |
| Handlers.DetachKeepsPaths | server.js:160-161 | After a splice, every walk that avoids the removed edge resolves as before. |
| Handlers.DetachSplices | server.js:160-161 | After a splice, the parent's listing is the old one without position i, in the same order. No remaining child has the removed name. |
| Handlers.DetachListing | server.js:160-161 | After a splice, the parent's listing loses exactly the item at position i. |
| Handlers.DetachNameGone | server.js:160-161 | After a splice, no remaining sibling has the removed child's name. |
| Handlers.DeleteSplicesChild | server.js:154-161 | A successful delete removes the child at the first index with that name. The other children keep their order, and no other node changes. |
| Handlers.DeleteTarget | server.js:154-160 | The node a successful delete removes is the one at the parent's path followed by the name. |
| Handlers.DeleteRemovesSubtree | server.js:160-161 | After a successful delete, no path through the removed node resolves: the whole subtree is gone. |
| Handlers.DetachCutsEdge | server.js:160-161 | After a splice, every path through the removed edge fails to resolve. |
| Handlers.ResolveThroughMissing | server.js:29 | A walk whose next segment is missing resolves to nothing, whatever follows. |
| Handlers.DeleteKeepsOtherPaths | server.js:160-161 | After a successful delete, every path that does not go through the removed node resolves as before. |
| Handlers.DeleteTwiceNotFound | server.js:154-158 | Repeating a successful delete gets "item not found". |
| Flatten.FoldCommute | server.js:40-49 | Pushing under other keys commutes with setting this key. |
| Flatten.FoldConcat | server.js:45-55 | Folding two record lists is folding the first, then the second. |
| Flatten.FoldAt | server.js:40-49 | For any records, a fold leaves under one key the old value followed by the listings of every record whose path joins to that key, in record order. |
| Flatten.KeyedAtPath | server.js:52 | When every record's segments are non-empty and '/'-free, the records that join to a key are exactly those at the key split on '/'. |
| Flatten.KeyOfPath | server.js:52 | A well-formed path is the split key exactly when it joins to the key. |
| Flatten.DirsPaths | server.js:52-53 | Every directory below a node has a path extending the node's path, with non-empty, '/'-free segments. |
| Flatten.ChildDirsPaths | server.js:51-53 | The directories below a node's children have paths strictly longer than the node's path. |
| Flatten.ChildKeysAbsent | server.js:52 | No descendant directory has the key of the directory itself. |
| Flatten.BelowKeysAbsent | server.js:52 | No directory below a child has the parent's key. |
| Flatten.PartialStep | server.js:45-54 | One turn of the `forEach` pushes the child's item and then the child's directories. |
| Flatten.FoldDirsOf | server.js:37-58 | One call sets up the key, pushes the node's listing under it, and folds in its children's directories. |
| Flatten.ListingsAtConcat | server.js:45-55 | The records at a path in a concatenation are those of each part, in order. |
| Flatten.ListingsAtNone | server.js:52 | Records none of whose paths is the given path hold no listing at that path. |
| Flatten.ChildListings | server.js:45-54 | Among a node's children, only the first with a given name contributes records at paths under that name. |
| Flatten.ListingsAtDirs | server.js:37-58 | Below a directory, the records at a path are one listing, of the node the path leads to, when that node is a directory, and none otherwise. |
| Flatten.ListingsAtChildren | server.js:45-55 | Below the children of a directory, the records at a longer path are the listing of the node the path leads to, if it is a directory. |
| Flatten.FlattenListings | server.js:37-58 | For every valid tree, whatever its names hold: a key is in the flattened map exactly when some directory's path joins to it, and it holds the listings of all such directories, concatenated in depth-first order. |
| Flatten.FlattenAgrees | server.js:37-58 | A string is a key of the flattened map exactly when, split on '/', it leads to a directory. The key holds that directory's children in order, each typed by its kind. Files get no key. |
| Flatten.FileSystemOf | server.js:37-41 | For every valid tree, the root's key is "" and it holds the root's listing, whatever the names. |
| Flatten.Get | server.js:40-41 | The definition of one read on own keys: a present key reads as its list, a missing one as the empty list. It is the value that `if (!result[key]) result[key] = []` leaves before the push (server.js:40-41), and the client's `fileSystem[key] \|\| []` (FileManagementSystem.tsx:33) on a key that is not inherited. |
| Flatten.Push | server.js:40-49 | Pushing adds the key if it was missing and appends the items after the old ones under that key. |
| Flatten.PushKeepsOthers | server.js:40-49 | A push changes no key but its own. |
| Flatten.Fold | server.js:37-58 | Pushes each record's listing under its joined path, in record order. Defined here; characterised by `FoldAt`, `FoldConcat` and `FlattenListings`. |
| Flatten.DirsOf | server.js:37-58 | The directory records of `convertToFileSystem`'s pre-order recursion: the node's own listing, then those of its children in order. Defined here; characterised by `DirsPaths`, `FoldDirsOf` and `ListingsAtDirs`. |
| Flatten.ChildDirs | server.js:45-54 | The records below a list of children, one child after the other, as the `forEach` visits them. Defined here; characterised by `ChildDirsPaths`, `PartialStep` and `ChildListings`. |
| Flatten.Below | server.js:50-53 | The records of one child: none for a file, its recursion for a directory, under the path extended by its name. Defined here; characterised by `BelowKeysAbsent` and `ThrowBelow`. |
| Flatten.NoThrow | server.js:40-46 | The condition under which no push lands on an inherited value: every record whose key is inherited has no items. Defined here; characterised by `InheritedKeyThrows`, `ThrowBelow` and `ServedFails`. |
| Flatten.ThrowsAt | server.js:40-52 | A top-level directory whose bare-name key is inherited and which has a child. Defined here; `ServedFails` shows it is exactly the cause of the 500. |
| Flatten.ServedFileSystem | server.js:64-70 | GET /api/filesystem's answer: `None` for the 500, otherwise the own keys of the object. Defined here; characterised by `ServedFails` (when it is a 500), `ServedAgrees` (its keys and their values) and `ServedRootKey` (the root key). |
| Flatten.ProtoKeysPlain | server.js:52 | No inherited name is empty or contains '/'. |
| Flatten.JoinInherited | server.js:52 | Only a path of one segment joins to an inherited name. |
| Flatten.StripPush | server.js:40-46 | Two objects that agree on their own keys still agree after the same push. |
| Flatten.FoldStrip | server.js:37-58 | Two objects that agree on their own keys still agree after the same pushes. |
| Flatten.InheritedKeyThrows | server.js:40-46 | A directory whose key is an inherited name and which has a child makes the conversion throw. |
| Flatten.ThrowBelow | server.js:45-54 | A throw below one child is a throw of the whole directory. |
| Flatten.ConvertChild | server.js:45-54 | One turn of the `forEach` on the object keeps it equal to the dictionary's fold with inherited names left out. |
| Flatten.ConvertEnds | server.js:37-58 | After the loop, no record of the directory threw, and the dictionary fold is complete. |
| Flatten.TopLevelRecords | server.js:52 | The records at a one-segment path have no items exactly when no top-level directory of that name has a child. |
| Flatten.ServedFails | server.js:64-70 | GET /api/filesystem answers 500 exactly when some top-level directory named after an inherited property has a child. |
| Flatten.ServedAgrees | server.js:37-58 | In a well-named tree, a string is a key of the served map exactly when it is not an inherited name and, split on '/', leads to a directory. The key holds that directory's listing. |
| Flatten.ServedRootKey | server.js:38-41 | The served map always lists the root's children under "". |
| Flatten.ServedInheritedEmpty | server.js:40-46 | While the map is served, a top-level directory with an inherited name has no children. |
| Flatten.ServedWhenNoInheritedNames | server.js:64-67 | A tree whose top-level names are all own names is always served. |
| Server.FileServer.constructor | server.js:20 | The tree starts as a lone directory named ROOT, which is valid. |
| Server.FileServer.IndexOfChild | server.js:28 | The scan returns the first child position with the name, or none. |
| Server.FileServer.FindNodeByPath | server.js:23-34 | The loop returns the node that path resolution reaches, or null. |
| Server.FileServer.Locate | server.js:79 | An empty path is the root; otherwise the walk decides. |
| Server.FileServer.ListDirectory | server.js:74-98 | The result is NotFound exactly when the path does not resolve, NotADirectory for a file, and otherwise the directory's listing. When the map is served and the tree is well named, a path that is not an inherited name is a key of the served map exactly when the listing succeeds, and the key holds the listing; a listed directory with an inherited name is empty. |
| Server.FileServer.HandleAdd | server.js:101-136 | The route's status and new tree are those of `Add`, and the invariant holds afterwards. |
| Server.FileServer.HandleDelete | server.js:139-170 | The route's status and new tree are those of `Delete`, and the invariant holds afterwards. The reported kind is that of the node at the parent's path followed by the name. |
| Server.FileServer.ConvertInto | server.js:37-59 | The recursion throws exactly when some directory under the node whose key is an inherited name has an item to push. Otherwise the object it leaves holds exactly the own keys of the dictionary fold of the node's directories. |
| Server.FileServer.VisitChild | server.js:45-54 | One call of the `forEach` callback: a throw is a throw of the whole directory. Otherwise the object gains the child's item and its directories' listings, with no inherited name as an own key. |
| Server.FileServer.ConvertToFileSystem | server.js:64-70 | The answer is the served map, and it is a 500 exactly when some top-level directory named after an inherited property has a child. In a well-named tree, the served map's keys are exactly the directory paths that are not inherited names, each holding its directory's listing. |
| Server.AddThrowsAtParent | server.js:40-46 | A successful add under a top-level directory with an inherited name makes the conversion throw there. |
| Server.AddThrowsBefore | server.js:121-126 | After a successful add, the only new cause of a throw is the parent the add went to. |
| Server.AddThrowsOnlyThere | server.js:121-126 | After a successful add the tree is valid, and every cause of a throw was a cause before or is the path the add went to. |
| Server.AddRefreshFails | server.js:64-70 | If the map was served before a successful add, it is served afterwards exactly when the parent's path is not an inherited name. |
| Server.DeleteThrowsBefore | server.js:154-161 | After a successful delete, every cause of a throw was a cause before. |
| Server.DeleteThrowsOnlyBefore | server.js:154-161 | After a successful delete the tree is valid, and no cause of a throw is new. |
| Server.DeleteKeepsServed | server.js:64-70 | If the map was served before a successful delete, it is served afterwards. |
| Navigation.NavigateToDirectory | FileManagementSystem.tsx:126-128 | The new path is the old one with exactly the given segment appended. |
| Navigation.NavigateToParent | FileManagementSystem.tsx:130-134 | At the root the path stays `[]`. Otherwise it loses its last segment and is a prefix of the old path. |
| Navigation.NavigateToBreadcrumb | FileManagementSystem.tsx:136-138 | The new path is a prefix of the old, of length `index + 1` when that fits. |
| Navigation.OpenItem | FileManagementSystem.tsx:244 | Clicking a file leaves the path unchanged; clicking a directory appends its name. |
| Navigation.TrimStart | FileManagementSystem.tsx:61 | The result is a suffix that does not start with white space, and everything removed was white space. |
| Navigation.TrimEnd | FileManagementSystem.tsx:61 | The result is a prefix that does not end with white space, and everything removed was white space. |
| Navigation.Trim | FileManagementSystem.tsx:61-63 | The trimmed name neither starts nor ends with white space. It is empty exactly when the name is all white space, so empty and blank names are refused. |
| Navigation.ParentAfterDirectory | FileManagementSystem.tsx:126-134 | Entering a directory and going to the parent returns to the same path. |
| Navigation.BreadcrumbSettles | FileManagementSystem.tsx:136-138 | Clicking a breadcrumb twice is clicking it once, and the last breadcrumb keeps the path. |
| Navigation.RequestPathRoundTrip | FileManagementSystem.tsx:32 | Splitting the joined path as the server does gives back the client's path. The root path is exactly the one that joins to "". |
| Navigation.CurrentItems | FileManagementSystem.tsx:32-33 | The lookup yields an inherited property exactly when the key is not the server's and is an inherited name, and then it is that property. Otherwise it yields the list under the key, or the empty list. |
| Navigation.Render | FileManagementSystem.tsx:232-238 | The screen shows "This directory is empty" for an empty list or an inherited function with `length` 0. It shows a card per item for a non-empty list, and fails for any other inherited property. |
| Navigation.OnScreen | FileManagementSystem.tsx:238-240 | The definition of which items get a card: those of a non-empty list, and none on the other screens. |
| Navigation.Shown | FileManagementSystem.tsx:232-240 | The cards at a path are the items the lookup lists, and none when it yields an inherited property. `CurrentItemsMatchServer` ties them to the tree. |
| Navigation.Apply | FileManagementSystem.tsx:170-244 | One user action on the path: Root (tsx:170) goes to `[]`, a breadcrumb (tsx:179), Go to Parent (tsx:218) and a click on an item (tsx:244) use their handlers. Defined here; characterised by `NavigationStaysInDirectories`. |
| Navigation.Run | FileManagementSystem.tsx:170-244 | A sequence of user actions applied in order. Defined here; characterised by `RunStaysInDirectories`. |
| Navigation.Offered | FileManagementSystem.tsx:170-244 | The actions the screen offers: one breadcrumb per segment (tsx:175) and one click per card (tsx:238). Root and Go to Parent are always allowed; the disabled Go to Parent at the root (tsx:219) is not told apart. Defined here; used by `NavigationStaysInDirectories`. |
| Navigation.AllOffered | FileManagementSystem.tsx:170-244 | Every action of a run is offered by the screen it is taken on. Defined here; used by `RunStaysInDirectories`. |
| Navigation.Refresh | FileManagementSystem.tsx:42-46 | A successful answer replaces the client's map; after a 500 the client keeps the map it had. |
| Navigation.NameAccepted | FileManagementSystem.tsx:61-64 | A name is let through exactly when it has a character that is not white space. |
| Navigation.CurrentItemsMatchServer | FileManagementSystem.tsx:32-33 | With the map the server sent, the lookup at a path that joins to an inherited name yields that inherited property. At any other path it yields the listing of the directory the path names, or nothing if it names none. The cards on screen are that listing in every case. Rendering fails exactly at inherited names whose property is not a function with `length` 0. |
| Navigation.RootShowsRootListing | FileManagementSystem.tsx:232-238 | At the root, for any names, the lookup yields the root's children and the screen shows them. |
| Navigation.NavigationStaysInDirectories | FileManagementSystem.tsx:170-179 | Every action the screen offers (Root, a breadcrumb, Go to Parent, a click on an item) leads from a directory to a directory. |
| Navigation.PrefixIsDirectory | FileManagementSystem.tsx:175-179 | Every prefix of a directory's path names a directory. |
| Navigation.OpenStaysInDirectories | FileManagementSystem.tsx:238-244 | Opening an item on screen keeps the path at a directory. |
| Navigation.RunStaysInDirectories | FileManagementSystem.tsx:126-138 | Any sequence of offered actions starting in a directory ends in a directory. |
| Navigation.AddFromCurrentDirectory | FileManagementSystem.tsx:60-76 | An add the client lets through, sent from the directory on screen, succeeds or conflicts. It conflicts exactly when a card on screen has the name. |
| Navigation.NameListed | FileManagementSystem.tsx:238-240 | A child has the name exactly when the listing on screen shows it. |
| Navigation.AddShowsAfterRefresh | FileManagementSystem.tsx:72-83 | After a successful add, the refresh fails exactly when the directory's path is an inherited name, and then the client keeps its old map. Otherwise the lookup yields the old cards followed by the new item. |
| Navigation.AddChildAt | server.js:121-126 | A successful add at the client's path keeps that path at the same directory and appends the new item to its listing. The hypotheses `WellNamed` and `'/' !in name` serve only the conclusion that the tree stays '/'-free. |
| Navigation.DeleteFromCurrentDirectory | FileManagementSystem.tsx:104-114 | Deleting an item that has a card on screen succeeds, and the server keeps answering. After the refresh the lookup yields the other items in order and nothing with that name. |
| Navigation.DeleteChildAt | server.js:154-161 | Deleting a child of the directory at the client's path by name succeeds. The path still leads to that directory, whose listing loses exactly that item. The hypothesis `WellNamed` serves only the conclusion that the tree stays '/'-free. |
| Sample.SampleValid | server.js:173-190 | The start-up tree satisfies the invariant, and its names have no '/'. |
| Sample.SampleDocuments | server.js:184 | At Documents the client shows Work, Personal and notes.txt, in push order. |
| Sample.SampleReadme | server.js:176-178 | A path naming the file readme.txt shows nothing. |
| Sample.SampleVacation | server.js:186-189 | The server answers, and the empty nested directory has its own key, "Images/Vacation", holding an empty list. |
| Sample.EmptyConstructorFailsToRender | server.js:40-41 | With an empty top-level directory called "constructor", the server answers without that key. The client's lookup yields the inherited `constructor`, and rendering fails. |
| Sample.ConstructorWithChildFails | server.js:46 | Once "constructor" at the top level has a child, GET /api/filesystem answers 500. |
| Sample.SlashNamesShareKey | server.js:52 | In a tree the server can build, an empty top-level directory "a/b" and the directory "b" inside "a" both push under the key "a/b": clicking "a/b" shows a file that "a/b" does not hold. |

## Left out

- Express, CORS, JSON parsing, `app.listen`, and the HTTP status codes and messages are I/O. Only the status values are modelled, and each `Status` constructor's comment names its reply.
- The 500 of GET /api/filesystem, from a push on an inherited property, is modelled (`ServedFileSystem` is `None`). The other 500 paths of the try/catch blocks need a request body that is missing or holds non-string values, which the model does not represent.
- The request body's fields are strings in the model; a missing field is "". Non-string JSON values and array-valued query strings are not modelled.
- The client's `fetch` calls, `async` sequencing, loading state, toasts, dialogs and rendering are I/O and UI. The client's map is the one the server last sent (`Refresh`). The empty map the client holds before its first fetch is not modelled.
- React's unmounting of the component tree when rendering throws is reduced to the screen state `RenderFails`.
- The server's `result` object, shared across the recursion and mutated in place, is modelled as a map value passed in and returned.
- `initializeSampleData` appears only as the worked example in `Sample`. The start-up state of `FileServer` is the bare root.
- The C program that the server comments name (`File Management System.c`) is not part of this model. Its sibling-linked directory discovery, 100-entry cap, numbered-menu navigation and recursive freeing have no counterpart in the server or the client.
- Persistence of a 500: `ServedFails` says when the served map is a 500, and the add and delete lemmas say which causes an action can add. No lemma states that an existing cause persists over a run of later actions until its child is deleted.
- Node identity is an arena index. A deleted subtree stays in the arena, unreachable, where JavaScript would collect it; no lemma speaks about unreachable entries.
- Navigation.Trim: the set of white-space characters is that of `String.prototype.trim`. Strings are sequences of code points, not UTF-16 code units.
- Flatten.FlattenAgrees: proved only for trees where no name contains '/'. The server accepts such names (the client only trims for the emptiness check and sends the name as typed), and then two directories can share a key (`Sample.SlashNamesShareKey` exhibits one). For such trees only `Flatten.FlattenListings`, the concatenation of every directory joining to the key, is proved.
- Server.FileServer.ListDirectory: the tie to the served map holds only under the same '/'-free hypothesis.
- Flatten.ServedAgrees: proved only under the same '/'-free hypothesis, and so are the client lemmas built on it (`CurrentItemsMatchServer` and those that use it).
- Navigation.AddShowsAfterRefresh: proved only for names without '/'. The client sends such names unchanged. The new key is then longer than the current one, so the listing on screen should behave the same, but that case is not proved.
