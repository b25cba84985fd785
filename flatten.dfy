/** What `convertToFileSystem(root)` produces: a dictionary from '/'-joined directory
    paths to the ordered listing of each directory's children. */
module Flatten {
  import opened Paths
  import opened Namespace

  /** The client's `FileSystem` interface: `{ [key: string]: FileItem[] }`. */
  type FileSystem = map<string, seq<Item>>

  /** One directory of the tree: its path from the root and its listing. */
  datatype DirRecord = DirRecord(path: seq<string>, items: seq<Item>)

  /** Every directory at or below `x` in depth-first order, a directory before its
      children and siblings in insertion order; `segs` is the path of `x`. */
  ghost function DirsOf(es: seq<Entry>, x: nat, segs: seq<string>): seq<DirRecord>
    requires Ordered(es) && x < |es|
    decreases |es| - x, 1
  {
    [DirRecord(segs, Listing(es, x))] + ChildDirs(es, x, es[x].children, segs)
  }

  /** The directories below the directory children among `kids` (children of `x`). */
  ghost function ChildDirs(es: seq<Entry>, x: nat, kids: seq<nat>, segs: seq<string>): seq<DirRecord>
    requires Ordered(es) && x < |es|
    requires forall k :: 0 <= k < |kids| ==> x < kids[k] < |es|
    decreases |es| - x, 0, |kids|
  {
    if kids == [] then []
    else
      ChildDirs(es, x, kids[..|kids| - 1], segs) + Below(es, kids[|kids| - 1], segs)
  }

  /** The directories at or below child `c` of the directory at `segs`: none for a file. */
  ghost function Below(es: seq<Entry>, c: nat, segs: seq<string>): seq<DirRecord>
    requires Ordered(es) && c < |es|
    decreases |es| - c, 2
  {
    if es[c].isDirectory then DirsOf(es, c, segs + [es[c].name]) else []
  }

  /** `result[key] || []` */
  function Get(fs: FileSystem, key: string): (r: seq<Item>)
    ensures key in fs ==> r == fs[key]
    ensures key !in fs ==> r == []
  {
    if key in fs then fs[key] else []
  }

  /** `if (!result[key]) result[key] = []`, then `result[key].push(...items)`. */
  function Push(fs: FileSystem, key: string, items: seq<Item>): (r: FileSystem)
    ensures r.Keys == fs.Keys + {key}
    ensures Get(r, key) == Get(fs, key) + items
  {
    fs[key := Get(fs, key) + items]
  }

  /** A push changes no key but its own. */
  lemma {:induction false} PushKeepsOthers(fs: FileSystem, key: string, items: seq<Item>)
    ensures forall k :: k in fs && k != key ==> Push(fs, key, items)[k] == fs[k]
  {
  }

  /** Push each record's listing under its joined path, in order. */
  ghost function Fold(fs: FileSystem, rs: seq<DirRecord>): FileSystem
    decreases |rs|
  {
    if rs == [] then fs else Fold(Push(fs, Join(rs[0].path), rs[0].items), rs[1..])
  }

  /** The flattened tree as a dictionary that inherits no names (a `Map`, or an object
      without a prototype). The server's own object differs only at inherited names:
      see `ServedFileSystem`. */
  ghost function FileSystemOf(es: seq<Entry>): (r: FileSystem)
    requires Valid(es)
    ensures "" in r && r[""] == Listing(es, RootId)
  {
    assert Join([]) == "";
    FoldDirsOf(es, RootId, [], map[], map["" := []]);
    assert [] + Listing(es, RootId) == Listing(es, RootId);
    Fold(map[], DirsOf(es, RootId, []))
  }

  /** The listings of the records whose path is `path`, in order. */
  function ListingsAt(rs: seq<DirRecord>, path: seq<string>): seq<seq<Item>>
    decreases |rs|
  {
    if rs == [] then []
    else (if rs[0].path == path then [rs[0].items] else []) + ListingsAt(rs[1..], path)
  }

  /** The listings of the records whose path joins to `key`, in order: every record
      that pushes under `key`, whatever its names hold. */
  function ListingsKeyed(rs: seq<DirRecord>, key: string): seq<seq<Item>>
    decreases |rs|
  {
    if rs == [] then []
    else (if Join(rs[0].path) == key then [rs[0].items] else []) + ListingsKeyed(rs[1..], key)
  }

  function Concat(xss: seq<seq<Item>>): seq<Item>
    decreases |xss|
  {
    if xss == [] then [] else xss[0] + Concat(xss[1..])
  }

  ghost predicate KeyAbsent(key: string, rs: seq<DirRecord>)
  {
    forall j :: 0 <= j < |rs| ==> Join(rs[j].path) != key
  }

  // ---------------------------------------------------------------------------
  // Folding

  lemma {:induction false} FoldCommute(fs: FileSystem, key: string, v: seq<Item>, rs: seq<DirRecord>)
    requires KeyAbsent(key, rs)
    ensures Fold(fs[key := v], rs) == Fold(fs, rs)[key := v]
    decreases |rs|
  {
    if rs != [] {
      var k0 := Join(rs[0].path);
      assert Push(fs[key := v], k0, rs[0].items) == Push(fs, k0, rs[0].items)[key := v];
      FoldCommute(Push(fs, k0, rs[0].items), key, v, rs[1..]);
    }
  }

  lemma {:induction false} FoldConcat(fs: FileSystem, a: seq<DirRecord>, b: seq<DirRecord>)
    ensures Fold(fs, a + b) == Fold(Fold(fs, a), b)
    decreases |a|
  {
    if a == [] {
      assert a + b == b;
    } else {
      assert (a + b)[0] == a[0];
      assert (a + b)[1..] == a[1..] + b;
      FoldConcat(Push(fs, Join(a[0].path), a[0].items), a[1..], b);
    }
  }

  /** What a fold leaves under one key: the old value followed by the listings of the
      records whose path joins to the key, in record order. */
  lemma {:induction false} FoldAt(fs: FileSystem, rs: seq<DirRecord>, k: string)
    ensures k in Fold(fs, rs) <==> k in fs || ListingsKeyed(rs, k) != []
    ensures k in Fold(fs, rs) ==> Fold(fs, rs)[k] == Get(fs, k) + Concat(ListingsKeyed(rs, k))
    decreases |rs|
  {
    if rs == [] {
      assert Get(fs, k) + [] == Get(fs, k);
    } else {
      var r0 := rs[0];
      var fs1 := Push(fs, Join(r0.path), r0.items);
      var rest := ListingsKeyed(rs[1..], k);
      FoldAt(fs1, rs[1..], k);
      if Join(r0.path) == k {
        PushHere(fs, k, r0.items, rest);
      } else {
        assert ListingsKeyed(rs, k) == rest;
        assert Get(fs1, k) == Get(fs, k);
      }
    }
  }

  /** When every record's path is well formed, the records that join to a key are
      exactly those at the key split on '/'. */
  lemma {:induction false} KeyedAtPath(rs: seq<DirRecord>, k: string)
    requires forall j :: 0 <= j < |rs| ==> WellFormedPath(rs[j].path)
    ensures ListingsKeyed(rs, k) == ListingsAt(rs, ServerPath(k))
    decreases |rs|
  {
    if rs != [] {
      KeyOfPath(rs[0].path, k);
      KeyedAtPath(rs[1..], k);
    }
  }

  /** A well-formed path is the split-up key exactly when it joins to the key. */
  lemma {:induction false} KeyOfPath(path: seq<string>, k: string)
    requires WellFormedPath(path)
    ensures path == ServerPath(k) <==> Join(path) == k
  {
    if path != [] {
      assert path[0] != "";
    }
    ServerPathJoin(path);
    JoinServerPath(k);
  }

  lemma {:induction false} PushHere(fs: FileSystem, k: string, items: seq<Item>, rest: seq<seq<Item>>)
    ensures Get(Push(fs, k, items), k) + Concat(rest) == Get(fs, k) + Concat([items] + rest)
  {
    assert ([items] + rest)[0] == items;
    assert ([items] + rest)[1..] == rest;
  }

  // ---------------------------------------------------------------------------
  // Paths of the directory records

  /** Every record below `x` has a path that extends `segs` by node names. */
  lemma {:induction false} DirsPaths(es: seq<Entry>, x: nat, segs: seq<string>)
    requires Valid(es) && x < |es|
    ensures forall r | r in DirsOf(es, x, segs) :: segs <= r.path
    ensures NonEmptySegments(segs) ==> forall r | r in DirsOf(es, x, segs) :: NonEmptySegments(r.path)
    ensures WellNamed(es) && SlashFree(segs) ==> forall r | r in DirsOf(es, x, segs) :: SlashFree(r.path)
    decreases |es| - x, 1
  {
    ChildDirsPaths(es, x, es[x].children, segs);
  }

  lemma {:induction false} ChildDirsPaths(es: seq<Entry>, x: nat, kids: seq<nat>, segs: seq<string>)
    requires Valid(es) && x < |es|
    requires forall k :: 0 <= k < |kids| ==> x < kids[k] < |es|
    ensures forall r | r in ChildDirs(es, x, kids, segs) :: segs <= r.path && |segs| < |r.path|
    ensures NonEmptySegments(segs) ==> forall r | r in ChildDirs(es, x, kids, segs) :: NonEmptySegments(r.path)
    ensures WellNamed(es) && SlashFree(segs) ==> forall r | r in ChildDirs(es, x, kids, segs) :: SlashFree(r.path)
    decreases |es| - x, 0, |kids|
  {
    if kids != [] {
      var c := kids[|kids| - 1];
      ChildDirsPaths(es, x, kids[..|kids| - 1], segs);
      if es[c].isDirectory {
        var segs' := segs + [es[c].name];
        DirsPaths(es, c, segs');
        forall r | r in DirsOf(es, c, segs') ensures segs <= r.path && |segs| < |r.path| {
          assert r.path[..|segs|] == segs'[..|segs|];
        }
      }
    }
  }

  /** The key of a directory is never the key of one of its descendants. */
  lemma {:induction false} ChildKeysAbsent(es: seq<Entry>, x: nat, kids: seq<nat>, segs: seq<string>)
    requires Valid(es) && x < |es| && NonEmptySegments(segs)
    requires forall k :: 0 <= k < |kids| ==> x < kids[k] < |es|
    ensures KeyAbsent(Join(segs), ChildDirs(es, x, kids, segs))
  {
    var rs := ChildDirs(es, x, kids, segs);
    ChildDirsPaths(es, x, kids, segs);
    forall j | 0 <= j < |rs| ensures Join(rs[j].path) != Join(segs) {
      var p := rs[j].path;
      assert rs[j] in rs;
      assert p == segs + p[|segs|..];
      JoinLonger(segs, p[|segs|..]);
    }
  }

  /** A directory's key is absent from the records of the subtree of one of its children. */
  lemma {:induction false} BelowKeysAbsent(es: seq<Entry>, c: nat, segs: seq<string>)
    requires Valid(es) && c < |es| && NonEmptySegments(segs)
    ensures KeyAbsent(Join(segs), Below(es, c, segs))
  {
    if es[c].isDirectory {
      var segs' := segs + [es[c].name];
      var rs := DirsOf(es, c, segs');
      DirsPaths(es, c, segs');
      forall j | 0 <= j < |rs| ensures Join(rs[j].path) != Join(segs) {
        var p := rs[j].path;
        assert rs[j] in rs;
        assert p == segs + p[|segs|..];
        assert p[|segs|..] != [];
        JoinLonger(segs, p[|segs|..]);
      }
    }
  }

  /** One turn of the loop over the children of `x`: pushing child `j`'s entry under
      the directory's key and then folding in the records below child `j`. */
  lemma {:induction false} FoldChildStep(es: seq<Entry>, x: nat, segs: seq<string>, j: nat, base: FileSystem, v: seq<Item>)
    requires Valid(es) && x < |es| && j < |es[x].children| && NonEmptySegments(segs)
    ensures var kids := es[x].children;
            Fold(Fold(base, ChildDirs(es, x, kids[..j], segs))[Join(segs) := v], Below(es, kids[j], segs)) ==
              Fold(base, ChildDirs(es, x, kids[..j + 1], segs))[Join(segs) := v]
  {
    var kids := es[x].children;
    var c := kids[j];
    assert kids[..j + 1][..j] == kids[..j];
    assert kids[..j + 1][j] == c;
    assert ChildDirs(es, x, kids[..j + 1], segs) == ChildDirs(es, x, kids[..j], segs) + Below(es, c, segs);
    BelowKeysAbsent(es, c, segs);
    FoldCommute(Fold(base, ChildDirs(es, x, kids[..j], segs)), Join(segs), v, Below(es, c, segs));
    FoldConcat(base, ChildDirs(es, x, kids[..j], segs), Below(es, c, segs));
  }

  /** The accumulator after the first `j` children of `x` have been handled: the
      directory's key holds the first `j` items of its listing after what `base` held. */
  ghost function Partial(es: seq<Entry>, x: nat, segs: seq<string>, base: FileSystem, j: nat): FileSystem
    requires Ordered(es) && x < |es| && j <= |es[x].children| && Join(segs) in base
  {
    Fold(base, ChildDirs(es, x, es[x].children[..j], segs))[Join(segs) := base[Join(segs)] + Listing(es, x)[..j]]
  }

  /** One turn of the loop: push child `j`'s item under the key, then fold in the
      directories below child `j`. */
  lemma {:induction false} PartialStep(es: seq<Entry>, x: nat, segs: seq<string>, base: FileSystem, j: nat)
    requires Valid(es) && x < |es| && j < |es[x].children| && NonEmptySegments(segs) && Join(segs) in base
    ensures var key, acc := Join(segs), Partial(es, x, segs, base, j);
            var c := es[x].children[j];
            key in acc &&
            Fold(acc[key := acc[key] + [ItemOf(es[c])]], Below(es, c, segs)) == Partial(es, x, segs, base, j + 1)
  {
    var key := Join(segs);
    var kids := es[x].children;
    var c := kids[j];
    var l := Listing(es, x);
    var v := base[key] + l[..j + 1];
    var done := Fold(base, ChildDirs(es, x, kids[..j], segs));
    var acc := Partial(es, x, segs, base, j);
    assert l[..j + 1] == l[..j] + [ItemOf(es[c])];
    assert acc[key] + [ItemOf(es[c])] == v;
    assert acc[key := acc[key] + [ItemOf(es[c])]] == done[key := v];
    FoldChildStep(es, x, segs, j, base, v);
  }

  /** Folding a directory's records: its own key gets its listing appended to whatever
      was there (or to `[]`), and its subtree's records follow. */
  lemma {:induction false} FoldDirsOf(es: seq<Entry>, x: nat, segs: seq<string>, result: FileSystem, base: FileSystem)
    requires Valid(es) && x < |es| && NonEmptySegments(segs)
    requires base == if Join(segs) in result then result else result[Join(segs) := []]
    ensures Join(segs) in base
    ensures Fold(result, DirsOf(es, x, segs)) ==
      Fold(base, ChildDirs(es, x, es[x].children, segs))[Join(segs) := base[Join(segs)] + Listing(es, x)]
  {
    var key := Join(segs);
    var rec := DirRecord(segs, Listing(es, x));
    var below := ChildDirs(es, x, es[x].children, segs);
    assert ([rec] + below)[0] == rec;
    assert ([rec] + below)[1..] == below;
    assert Push(result, key, Listing(es, x)) == base[key := base[key] + Listing(es, x)];
    ChildKeysAbsent(es, x, es[x].children, segs);
    FoldCommute(base, key, base[key] + Listing(es, x), below);
  }

  // ---------------------------------------------------------------------------
  // Which records sit at a given path

  lemma {:induction false} ListingsAtConcat(a: seq<DirRecord>, b: seq<DirRecord>, path: seq<string>)
    ensures ListingsAt(a + b, path) == ListingsAt(a, path) + ListingsAt(b, path)
    decreases |a|
  {
    if a == [] {
      assert a + b == b;
    } else {
      assert (a + b)[1..] == a[1..] + b;
      ListingsAtConcat(a[1..], b, path);
    }
  }

  lemma {:induction false} ListingsAtNone(rs: seq<DirRecord>, path: seq<string>)
    requires forall r | r in rs :: r.path != path
    ensures ListingsAt(rs, path) == []
    decreases |rs|
  {
    if rs != [] {
      assert rs[0] in rs;
      forall r | r in rs[1..] ensures r.path != path {
        assert r in rs;
      }
      ListingsAtNone(rs[1..], path);
    }
  }

  /** Below the first `m` children of `x`, only the child called `s` (if it is a
      directory among them) holds records at `segs + [s] + rest`. */
  lemma {:induction false} ChildListings(es: seq<Entry>, x: nat, m: nat, segs: seq<string>, s: string, rest: seq<string>)
    requires Valid(es) && x < |es| && m <= |es[x].children|
    ensures var kids := es[x].children;
            ListingsAt(ChildDirs(es, x, kids[..m], segs), segs + [s] + rest) ==
              match FirstNamed(es, kids, s)
              case None => []
              case Some(k) => if k < m then ListingsAt(Below(es, kids[k], segs), segs + [s] + rest) else []
  {
    if m == 0 {
      assert es[x].children[..m] == [];
    } else {
      ChildListings(es, x, m - 1, segs, s, rest);
      assert ListingsAt(ChildDirsUpTo(es, x, m - 1, segs), segs + [s] + rest) == FirstChildListings(es, x, m - 1, segs, s, rest);
      ChildListingsStep(es, x, m, segs, s, rest);
      assert ListingsAt(ChildDirsUpTo(es, x, m, segs), segs + [s] + rest) == FirstChildListings(es, x, m, segs, s, rest);
    }
  }

  /** The records below the first `m` children of `x`. */
  ghost function ChildDirsUpTo(es: seq<Entry>, x: nat, m: nat, segs: seq<string>): seq<DirRecord>
    requires Ordered(es) && x < |es| && m <= |es[x].children|
  {
    ChildDirs(es, x, es[x].children[..m], segs)
  }

  /** The records at `segs + [s] + rest` that `ChildListings` promises for the first `m`
      children: those below the first child called `s`, if it is among them. */
  ghost function FirstChildListings(es: seq<Entry>, x: nat, m: nat, segs: seq<string>, s: string, rest: seq<string>): seq<seq<Item>>
    requires Ordered(es) && x < |es|
  {
    var kids := es[x].children;
    match FirstNamed(es, kids, s)
    case None => []
    case Some(k) => if k < m then ListingsAt(Below(es, kids[k], segs), segs + [s] + rest) else []
  }

  /** Adding child `m - 1` to the first `m - 1` children adds records at
      `segs + [s] + rest` only when that child is the first one called `s`. */
  lemma {:induction false} ChildListingsStep(es: seq<Entry>, x: nat, m: nat, segs: seq<string>, s: string, rest: seq<string>)
    requires Valid(es) && x < |es| && 0 < m <= |es[x].children|
    requires ListingsAt(ChildDirsUpTo(es, x, m - 1, segs), segs + [s] + rest) == FirstChildListings(es, x, m - 1, segs, s, rest)
    ensures ListingsAt(ChildDirsUpTo(es, x, m, segs), segs + [s] + rest) == FirstChildListings(es, x, m, segs, s, rest)
  {
    var kids := es[x].children;
    var P := segs + [s] + rest;
    var c := kids[m - 1];
    var earlier := ListingsAt(ChildDirsUpTo(es, x, m - 1, segs), P);
    var last := ListingsAt(Below(es, c, segs), P);
    ChildDirsLast(es, x, m, segs, P);
    assert ListingsAt(ChildDirsUpTo(es, x, m, segs), P) == earlier + last;
    var first := FirstNamed(es, kids, s);
    if es[c].name == s {
      FirstNamedAt(es, x, m - 1);
      assert first == Some(m - 1);
      assert earlier == [];
      assert earlier + last == last;
    } else {
      BelowElsewhere(es, c, segs, s, rest);
      assert last == [];
      assert first.Some? ==> first.value != m - 1;
      assert earlier + last == earlier;
    }
  }

  lemma {:induction false} ChildDirsLast(es: seq<Entry>, x: nat, m: nat, segs: seq<string>, P: seq<string>)
    requires Valid(es) && x < |es| && 0 < m <= |es[x].children|
    ensures var kids := es[x].children;
            ListingsAt(ChildDirs(es, x, kids[..m], segs), P) ==
              ListingsAt(ChildDirs(es, x, kids[..m - 1], segs), P) + ListingsAt(Below(es, kids[m - 1], segs), P)
  {
    var kids := es[x].children;
    assert kids[..m][..m - 1] == kids[..m - 1];
    ListingsAtConcat(ChildDirs(es, x, kids[..m - 1], segs), Below(es, kids[m - 1], segs), P);
  }

  /** A child not called `s` holds no records at `segs + [s] + rest`. */
  lemma {:induction false} BelowElsewhere(es: seq<Entry>, c: nat, segs: seq<string>, s: string, rest: seq<string>)
    requires Valid(es) && c < |es| && es[c].name != s
    ensures ListingsAt(Below(es, c, segs), segs + [s] + rest) == []
  {
    var P := segs + [s] + rest;
    if es[c].isDirectory {
      var segs' := segs + [es[c].name];
      DirsPaths(es, c, segs');
      forall r | r in DirsOf(es, c, segs') ensures r.path != P {
        assert segs' <= r.path;
        assert r.path[|segs|] == segs'[|segs|] == es[c].name;
        assert P[|segs|] == s;
      }
      ListingsAtNone(DirsOf(es, c, segs'), P);
    }
  }

  /** The records below a directory `x` at path `segs + q`: exactly one, holding the
      listing of the node `q` leads to, when that node is a directory; none otherwise. */
  lemma {:induction false} ListingsAtDirs(es: seq<Entry>, x: nat, segs: seq<string>, q: seq<string>)
    requires Valid(es) && x < |es| && es[x].isDirectory
    ensures ListingsAt(DirsOf(es, x, segs), segs + q) ==
      match Resolve(es, x, q)
      case None => []
      case Some(d) => if es[d].isDirectory then [Listing(es, d)] else []
    decreases |q|, 1
  {
    var kids := es[x].children;
    var self := [DirRecord(segs, Listing(es, x))];
    var below := ChildDirs(es, x, kids, segs);
    ListingsAtConcat(self, below, segs + q);
    if q == [] {
      assert segs + q == segs;
      ChildDirsPaths(es, x, kids, segs);
      ListingsAtNone(below, segs);
    } else {
      assert |segs + q| > |segs|;
      ListingsAtChildren(es, x, segs, q);
    }
  }

  /** The records below the children of `x` at a path one or more segments longer. */
  lemma {:induction false} ListingsAtChildren(es: seq<Entry>, x: nat, segs: seq<string>, q: seq<string>)
    requires Valid(es) && x < |es| && es[x].isDirectory && q != []
    ensures ListingsAt(ChildDirs(es, x, es[x].children, segs), segs + q) ==
      match Resolve(es, x, q)
      case None => []
      case Some(d) => if es[d].isDirectory then [Listing(es, d)] else []
    decreases |q|, 0
  {
    var kids := es[x].children;
    var s, rest := q[0], q[1..];
    assert segs + q == segs + [s] + rest;
    assert kids[..|kids|] == kids;
    ChildListings(es, x, |kids|, segs, s, rest);
    match FirstNamed(es, kids, s)
    case None =>
    case Some(k) =>
      var c := kids[k];
      if es[c].isDirectory {
        ListingsAtDirs(es, c, segs + [s], rest);
      } else if rest != [] {
        assert Step(es, c, rest[0]).None?;
      }
  }

  /** The flattened tree agrees with path resolution: a string is a key exactly when,
      split on '/', it leads from the root to a directory, and the list under it is
      that directory's children in order, each typed 'directory' or 'file' by its kind.
      (Names holding '/' can make two directories share a key, hence WellNamed.) */
  lemma {:induction false} FlattenAgrees(es: seq<Entry>, k: string)
    requires Valid(es) && WellNamed(es)
    ensures k in FileSystemOf(es) <==> IsDirAt(es, ServerPath(k))
    ensures k in FileSystemOf(es) ==> FileSystemOf(es)[k] == Listing(es, Resolve(es, RootId, ServerPath(k)).value)
  {
    var p := ServerPath(k);
    var rs := DirsOf(es, RootId, []);
    FlattenListings(es, k);
    DirsPaths(es, RootId, []);
    forall j | 0 <= j < |rs| ensures WellFormedPath(rs[j].path) {
      assert rs[j] in rs;
    }
    KeyedAtPath(rs, k);
    assert [] + p == p;
    ListingsAtDirs(es, RootId, [], p);
    if IsDirAt(es, p) {
      var l := Listing(es, Resolve(es, RootId, p).value);
      assert Concat([l]) == l + Concat([]) by { assert [l][1..] == []; }
    }
  }

  /** The flattened tree, looked up at one key: the listings of every directory whose
      path joins to it, in depth-first order. */
  lemma {:induction false} FlattenListings(es: seq<Entry>, k: string)
    requires Valid(es)
    ensures k in FileSystemOf(es) <==> ListingsKeyed(DirsOf(es, RootId, []), k) != []
    ensures k in FileSystemOf(es) ==> FileSystemOf(es)[k] == Concat(ListingsKeyed(DirsOf(es, RootId, []), k))
  {
    FoldAt(map[], DirsOf(es, RootId, []), k);
    assert Get(map[], k) == [];
  }

  // ---------------------------------------------------------------------------
  // The result as a JavaScript object

  /** The names every plain object inherits from `Object.prototype`. Reading one of them
      from an object without an own key of that name gives the inherited value (a
      function, or the prototype itself for `__proto__`): it is truthy and has no `push`. */
  const ProtoKeys: set<string> := {
    "constructor", "__defineGetter__", "__defineSetter__", "hasOwnProperty",
    "__lookupGetter__", "__lookupSetter__", "isPrototypeOf", "propertyIsEnumerable",
    "toString", "valueOf", "__proto__", "toLocaleString"
  }

  /** No own key of the object is one of the names it inherits. */
  ghost predicate OwnOnly(fs: FileSystem, inherited: set<string>)
  {
    forall k :: k in fs ==> k !in inherited
  }

  /** No directory whose key is an inherited name has an item to push: the push would
      call `push` on the inherited value and throw a TypeError. */
  ghost predicate NoThrow(rs: seq<DirRecord>, inherited: set<string>)
  {
    forall j :: 0 <= j < |rs| && Join(rs[j].path) in inherited ==> rs[j].items == []
  }

  /** The keys of `m` that are not inherited names. */
  ghost function Strip(m: FileSystem, inherited: set<string>): FileSystem
  {
    map k | k in m && k !in inherited :: m[k]
  }

  /** GET /api/filesystem: the own keys of the object `convertToFileSystem` builds, or
      None when the conversion throws and the route answers 500. */
  ghost function ServedFileSystem(es: seq<Entry>): Option<FileSystem>
    requires Valid(es)
  {
    if NoThrow(DirsOf(es, RootId, []), ProtoKeys) then Some(Strip(FileSystemOf(es), ProtoKeys)) else None
  }

  /** `n` names a top-level directory that has a child although `n` is an inherited name. */
  ghost predicate ThrowsAt(es: seq<Entry>, n: string)
    requires Valid(es)
  {
    n in ProtoKeys && IsDirAt(es, [n]) && es[Resolve(es, RootId, [n]).value].children != []
  }

  lemma {:induction false} ProtoKeysPlain()
    ensures forall k :: k in ProtoKeys ==> k != "" && '/' !in k
  {
  }

  /** A key with a '/' in it is never inherited. */
  lemma {:induction false} SlashNotInherited(k: string, i: nat)
    requires i < |k| && k[i] == '/'
    ensures k !in ProtoKeys
  {
    ProtoKeysPlain();
  }

  /** Only a path of one segment joins to an inherited name. */
  lemma {:induction false} JoinInherited(p: seq<string>)
    requires Join(p) in ProtoKeys
    ensures p == [Join(p)]
  {
    ProtoKeysPlain();
    JoinPlain(p, ProtoKeys);
  }

  /** A path that joins to a non-empty name without '/' has that name as its one segment. */
  lemma {:induction false} JoinPlain(p: seq<string>, names: set<string>)
    requires Join(p) in names && forall k :: k in names ==> k != "" && '/' !in k
    ensures p == [Join(p)]
  {
    if |p| == 1 {
      assert p == [p[0]];
    }
  }

  /** An object without inherited own keys is its own stripped copy. */
  lemma {:induction false} StripNone(m: FileSystem, inherited: set<string>)
    requires OwnOnly(m, inherited)
    ensures Strip(m, inherited) == m
  {
  }

  lemma {:induction false} StripOwnOnly(m: FileSystem, inherited: set<string>)
    ensures OwnOnly(Strip(m, inherited), inherited)
  {
  }

  /** Pushing under an own key adds no inherited name. */
  lemma {:induction false} PushOwnOnly(m: FileSystem, key: string, items: seq<Item>, inherited: set<string>)
    requires OwnOnly(m, inherited) && key in m
    ensures OwnOnly(Push(m, key, items), inherited)
  {
  }

  /** Pushing under a name: an inherited name leaves the stripped copy as it was, any
      other name is pushed in the stripped copy as well. */
  lemma {:induction false} StripPush(a: FileSystem, b: FileSystem, key: string, items: seq<Item>, inherited: set<string>)
    requires Strip(a, inherited) == Strip(b, inherited)
    ensures Strip(Push(a, key, items), inherited) == Strip(Push(b, key, items), inherited)
  {
    var sa, sb := Strip(a, inherited), Strip(b, inherited);
    if key !in inherited {
      assert Get(a, key) == Get(sa, key) == Get(sb, key) == Get(b, key);
      assert Strip(Push(a, key, items), inherited) == sa[key := Get(a, key) + items];
      assert Strip(Push(b, key, items), inherited) == sb[key := Get(b, key) + items];
    } else {
      assert Strip(Push(a, key, items), inherited) == sa;
      assert Strip(Push(b, key, items), inherited) == sb;
    }
  }

  /** Folding the same records into two objects that agree outside the inherited names
      gives two objects that still agree there. */
  lemma {:induction false} FoldStrip(a: FileSystem, b: FileSystem, rs: seq<DirRecord>, inherited: set<string>)
    requires Strip(a, inherited) == Strip(b, inherited)
    ensures Strip(Fold(a, rs), inherited) == Strip(Fold(b, rs), inherited)
    decreases |rs|
  {
    if rs != [] {
      var k0, items := Join(rs[0].path), rs[0].items;
      StripPush(a, b, k0, items, inherited);
      FoldStrip(Push(a, k0, items), Push(b, k0, items), rs[1..], inherited);
    }
  }

  lemma {:induction false} NoThrowConcat(a: seq<DirRecord>, b: seq<DirRecord>, inherited: set<string>)
    ensures NoThrow(a + b, inherited) <==> NoThrow(a, inherited) && NoThrow(b, inherited)
  {
    forall j | 0 <= j < |a| ensures (a + b)[j] == a[j] {
    }
    forall j | 0 <= j < |b| ensures (a + b)[|a| + j] == b[j] {
    }
    if NoThrow(a, inherited) && NoThrow(b, inherited) {
      forall j | 0 <= j < |a + b| && Join((a + b)[j].path) in inherited ensures (a + b)[j].items == [] {
        if j >= |a| {
          assert (a + b)[j] == b[j - |a|];
        }
      }
    }
  }

  lemma {:induction false} ChildDirsSnoc(es: seq<Entry>, x: nat, segs: seq<string>, j: nat)
    requires Ordered(es) && x < |es| && j < |es[x].children|
    ensures var kids := es[x].children;
            ChildDirs(es, x, kids[..j + 1], segs) == ChildDirs(es, x, kids[..j], segs) + Below(es, kids[j], segs)
  {
    var kids := es[x].children;
    assert kids[..j + 1][..j] == kids[..j];
  }

  /** A throw below child `j` is a throw below the first `n` children, for `j < n`. */
  lemma {:induction false} PrefixThrows(es: seq<Entry>, x: nat, segs: seq<string>, n: nat, j: nat, inherited: set<string>)
    requires Ordered(es) && x < |es| && j < n <= |es[x].children|
    requires !NoThrow(Below(es, es[x].children[j], segs), inherited)
    ensures !NoThrow(ChildDirs(es, x, es[x].children[..n], segs), inherited)
    decreases n
  {
    var kids := es[x].children;
    ChildDirsSnoc(es, x, segs, n - 1);
    NoThrowConcat(ChildDirs(es, x, kids[..n - 1], segs), Below(es, kids[n - 1], segs), inherited);
    if j < n - 1 {
      PrefixThrows(es, x, segs, n - 1, j, inherited);
    }
  }

  /** A throw below one child is a throw of the whole directory. */
  lemma {:induction false} ThrowBelow(es: seq<Entry>, x: nat, segs: seq<string>, j: nat, inherited: set<string>)
    requires Ordered(es) && x < |es| && j < |es[x].children|
    requires !NoThrow(Below(es, es[x].children[j], segs), inherited)
    ensures !NoThrow(DirsOf(es, x, segs), inherited)
  {
    var kids := es[x].children;
    PrefixThrows(es, x, segs, |kids|, j, inherited);
    assert kids[..|kids|] == kids;
    NoThrowConcat([DirRecord(segs, Listing(es, x))], ChildDirs(es, x, kids, segs), inherited);
  }

  /** A directory with an inherited name as its key and at least one child throws. */
  lemma {:induction false} InheritedKeyThrows(es: seq<Entry>, x: nat, segs: seq<string>, inherited: set<string>)
    requires Ordered(es) && x < |es| && Join(segs) in inherited && es[x].children != []
    ensures !NoThrow(DirsOf(es, x, segs), inherited)
  {
    assert DirsOf(es, x, segs)[0] == DirRecord(segs, Listing(es, x));
    assert Listing(es, x)[0] == ItemOf(es[es[x].children[0]]);
  }

  /** Before the loop over the children of `x`: nothing is folded yet, and the object
      the function starts from is `base` stripped. */
  lemma {:induction false} ConvertStarts(es: seq<Entry>, x: nat, segs: seq<string>, result: FileSystem, base: FileSystem,
                      inherited: set<string>)
    requires Valid(es) && x < |es| && OwnOnly(result, inherited)
    requires base == if Join(segs) in result then result else result[Join(segs) := []]
    ensures Join(segs) in base
    ensures var key := Join(segs);
            var obj := if key !in result && key !in inherited then result[key := []] else result;
            obj == Strip(Partial(es, x, segs, base, 0), inherited)
    ensures NoThrow(ChildDirs(es, x, es[x].children[..0], segs), inherited)
    ensures var key := Join(segs);
            OwnOnly(if key !in result && key !in inherited then result[key := []] else result, inherited)
  {
    var key := Join(segs);
    var kids := es[x].children;
    var obj := if key !in result && key !in inherited then result[key := []] else result;
    assert kids[..0] == [] && Listing(es, x)[..0] == [] && base[key] + [] == base[key];
    assert Partial(es, x, segs, base, 0) == base;
    StripNone(obj, inherited);
    assert Strip(base, inherited) == Strip(obj, inherited);
  }

  /** One turn of the loop over the children of `x`, on a plain object: the push of
      child `j`'s item into `obj`, then `obj2`, the records below child `j` folded into
      the object after the push and stripped. */
  lemma {:induction false} ConvertChild(es: seq<Entry>, x: nat, segs: seq<string>, base: FileSystem, j: nat,
                     obj: FileSystem, obj2: FileSystem, inherited: set<string>)
    requires Valid(es) && x < |es| && j < |es[x].children| && NonEmptySegments(segs) && Join(segs) in base
    requires obj == Strip(Partial(es, x, segs, base, j), inherited) && Join(segs) in obj
    requires NoThrow(ChildDirs(es, x, es[x].children[..j], segs), inherited)
    requires NoThrow(Below(es, es[x].children[j], segs), inherited)
    requires var c := es[x].children[j];
             var pushed := Push(obj, Join(segs), [ItemOf(es[c])]);
             obj2 == if es[c].isDirectory then Strip(Fold(pushed, Below(es, c, segs)), inherited) else pushed
    ensures obj2 == Strip(Partial(es, x, segs, base, j + 1), inherited)
    ensures OwnOnly(obj2, inherited)
    ensures NoThrow(ChildDirs(es, x, es[x].children[..j + 1], segs), inherited)
  {
    var key, c := Join(segs), es[x].children[j];
    if !es[c].isDirectory {
      var pushed := Push(obj, key, [ItemOf(es[c])]);
      StripOwnOnly(Partial(es, x, segs, base, j), inherited);
      PushOwnOnly(obj, key, [ItemOf(es[c])], inherited);
      StripNone(pushed, inherited);
      assert Below(es, c, segs) == [];
      assert Fold(pushed, []) == pushed;
    }
    StripOwnOnly(Partial(es, x, segs, base, j + 1), inherited);
    PartialStep(es, x, segs, base, j);
    PushFoldStrip(obj, Partial(es, x, segs, base, j), Partial(es, x, segs, base, j + 1),
                  key, [ItemOf(es[c])], Below(es, c, segs), inherited);
    ChildDirsSnoc(es, x, segs, j);
    NoThrowConcat(ChildDirs(es, x, es[x].children[..j], segs), Below(es, c, segs), inherited);
  }

  /** The object is the accumulator stripped; pushing and folding the same records into
      both keeps it so. */
  lemma {:induction false} PushFoldStrip(obj: FileSystem, acc: FileSystem, next: FileSystem, key: string, item: seq<Item>,
                      below: seq<DirRecord>, inherited: set<string>)
    requires obj == Strip(acc, inherited) && key in obj && key in acc
    requires Fold(acc[key := acc[key] + item], below) == next
    ensures Strip(Fold(Push(obj, key, item), below), inherited) == Strip(next, inherited)
  {
    assert acc[key := acc[key] + item] == Push(acc, key, item);
    StripNone(obj, inherited);
    StripPush(obj, acc, key, item, inherited);
    FoldStrip(Push(obj, key, item), Push(acc, key, item), below, inherited);
  }

  /** After the loop: the children's records did not throw, nor did the directory's own
      (an inherited key means no children), and the accumulator is the whole fold. */
  lemma {:induction false} ConvertEnds(es: seq<Entry>, x: nat, segs: seq<string>, result: FileSystem, base: FileSystem,
                    inherited: set<string>)
    requires Valid(es) && x < |es| && NonEmptySegments(segs)
    requires base == if Join(segs) in result then result else result[Join(segs) := []]
    requires NoThrow(ChildDirs(es, x, es[x].children[..|es[x].children|], segs), inherited)
    requires Join(segs) in inherited ==> es[x].children == []
    ensures NoThrow(DirsOf(es, x, segs), inherited)
    ensures Join(segs) in base && Fold(result, DirsOf(es, x, segs)) == Partial(es, x, segs, base, |es[x].children|)
  {
    var kids := es[x].children;
    assert kids[..|kids|] == kids;
    assert Listing(es, x)[..|kids|] == Listing(es, x);
    FoldDirsOf(es, x, segs, result, base);
    NoThrowConcat([DirRecord(segs, Listing(es, x))], ChildDirs(es, x, kids, segs), inherited);
  }

  /** No record at `p` has items. */
  ghost predicate EmptyAt(rs: seq<DirRecord>, p: seq<string>)
  {
    forall j :: 0 <= j < |rs| && rs[j].path == p ==> rs[j].items == []
  }

  /** No record at `p` has items exactly when the listings recorded at `p` are all empty. */
  lemma {:induction false} RecordsAtEmpty(rs: seq<DirRecord>, p: seq<string>)
    ensures EmptyAt(rs, p) <==> Concat(ListingsAt(rs, p)) == []
    decreases |rs|
  {
    if rs != [] {
      RecordsAtEmpty(rs[1..], p);
      var rest := ListingsAt(rs[1..], p);
      if rs[0].path == p {
        assert ([rs[0].items] + rest)[0] == rs[0].items;
        assert ([rs[0].items] + rest)[1..] == rest;
      } else {
        assert [] + rest == rest;
      }
      forall j | 0 <= j < |rs[1..]| ensures rs[1..][j] == rs[j + 1] {
      }
    }
  }

  /** The records at the one-segment path `[n]`: only the top-level directory called
      `n`, if there is one, and its items are its children. */
  lemma {:induction false} TopLevelRecords(es: seq<Entry>, n: string)
    requires Valid(es)
    ensures EmptyAt(DirsOf(es, RootId, []), [n]) <==>
            !(IsDirAt(es, [n]) && es[Resolve(es, RootId, [n]).value].children != [])
  {
    var rs := DirsOf(es, RootId, []);
    assert [] + [n] == [n];
    ListingsAtDirs(es, RootId, [], [n]);
    RecordsAtEmpty(rs, [n]);
    if IsDirAt(es, [n]) {
      var l := Listing(es, Resolve(es, RootId, [n]).value);
      assert Concat([l]) == l + Concat([]) by { assert [l][1..] == []; }
    }
  }

  /** The conversion throws exactly when some top-level directory named after an
      inherited property has a child. */
  lemma {:induction false} ServedFails(es: seq<Entry>)
    requires Valid(es)
    ensures ServedFileSystem(es).None? <==> exists n :: ThrowsAt(es, n)
  {
    var rs := DirsOf(es, RootId, []);
    forall n | n in ProtoKeys ensures ThrowsAt(es, n) <==> !EmptyAt(rs, [n]) {
      TopLevelRecords(es, n);
    }
    if !NoThrow(rs, ProtoKeys) {
      var j :| 0 <= j < |rs| && Join(rs[j].path) in ProtoKeys && rs[j].items != [];
      JoinInherited(rs[j].path);
      assert ThrowsAt(es, Join(rs[j].path));
    }
    if n :| ThrowsAt(es, n) {
      var j :| 0 <= j < |rs| && rs[j].path == [n] && rs[j].items != [];
      assert Join(rs[j].path) == n;
    }
  }

  /** The served map, key by key: a non-inherited name that leads from the root to a
      directory, holding that directory's listing. */
  lemma {:induction false} ServedAgrees(es: seq<Entry>, fs: FileSystem, k: string)
    requires Valid(es) && WellNamed(es) && ServedFileSystem(es) == Some(fs)
    ensures k in fs <==> k !in ProtoKeys && IsDirAt(es, ServerPath(k))
    ensures k in fs ==> fs[k] == Listing(es, Resolve(es, RootId, ServerPath(k)).value)
  {
    FlattenAgrees(es, k);
  }

  /** The served map always lists the root's children under "". */
  lemma {:induction false} ServedRootKey(es: seq<Entry>, fs: FileSystem)
    requires Valid(es) && ServedFileSystem(es) == Some(fs)
    ensures "" in fs && fs[""] == Listing(es, RootId)
  {
    assert "" in FileSystemOf(es);
    ProtoKeysPlain();
  }

  /** When the map is served, a top-level directory with an inherited name is empty. */
  lemma {:induction false} ServedInheritedEmpty(es: seq<Entry>, n: string)
    requires Valid(es) && ServedFileSystem(es).Some? && n in ProtoKeys && IsDirAt(es, [n])
    ensures Listing(es, Resolve(es, RootId, [n]).value) == []
  {
    ServedFails(es);
    assert !ThrowsAt(es, n);
  }

  /** A tree whose top-level names are all own names is always served. */
  lemma {:induction false} ServedWhenNoInheritedNames(es: seq<Entry>)
    requires Valid(es)
    requires forall k :: 0 <= k < |es[RootId].children| ==> es[es[RootId].children[k]].name !in ProtoKeys
    ensures ServedFileSystem(es).Some?
  {
    forall n ensures !ThrowsAt(es, n) {
      if Resolve(es, RootId, [n]).Some? {
        var c := Resolve(es, RootId, [n]).value;
        assert [n][1..] == [];
        assert Step(es, RootId, n) == Some(c);
        var k :| 0 <= k < |es[RootId].children| && es[RootId].children[k] == c;
        assert n !in ProtoKeys;
      }
    }
    ServedFails(es);
  }
}
