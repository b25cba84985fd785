/** The tree `initializeSampleData` builds at start-up, as a worked example of the model. */
module Sample {
  import opened Paths
  import opened Namespace
  import opened Flatten
  import opened Navigation

  /** ROOT holds Documents (Work, Personal, notes.txt), Images (Vacation, photo1.jpg)
      and readme.txt, each children list in push order. */
  function SampleTree(): seq<Entry>
  {
    [ Entry(RootName, true, [1, 2, 3]),
      Entry("Documents", true, [4, 5, 6]),
      Entry("Images", true, [7, 8]),
      Entry("readme.txt", false, []),
      Entry("Work", true, []),
      Entry("Personal", true, []),
      Entry("notes.txt", false, []),
      Entry("Vacation", true, []),
      Entry("photo1.jpg", false, []) ]
  }

  lemma {:induction false} SampleValid(es: seq<Entry>)
    requires es == SampleTree()
    ensures Valid(es) && WellNamed(es)
  {
    SampleShape(es);
    SampleSiblings(es);
    SampleSingleParent(es);
  }

  lemma {:induction false} SampleShape(es: seq<Entry>)
    requires es == SampleTree()
    ensures Ordered(es) && FilesAreLeaves(es) && NamesNonEmpty(es) && WellNamed(es)
  {
    forall i | 0 <= i < |es|
      ensures es[i].name != "" && '/' !in es[i].name
      ensures forall k :: 0 <= k < |es[i].children| ==> i < es[i].children[k] < |es|
      ensures !es[i].isDirectory ==> es[i].children == []
    {
      SampleNode(es, i);
    }
  }

  /** Node `i` of the sample: node `i` has children `3 * i + 1`, `3 * i + 2`, ... */
  lemma {:induction false} SampleNode(es: seq<Entry>, i: nat)
    requires es == SampleTree() && i < 9
    ensures |es| == 9
    ensures es[i].name != "" && '/' !in es[i].name
    ensures forall k :: 0 <= k < |es[i].children| ==> es[i].children[k] == 3 * i + k + 1 && i < es[i].children[k] < 9
    ensures !es[i].isDirectory ==> es[i].children == []
  {
    if i < 3 {
      SampleInner(es, i);
    } else {
      SampleLeaf(es, i);
    }
  }

  lemma {:induction false} SampleInner(es: seq<Entry>, i: nat)
    requires es == SampleTree() && i < 3
    ensures es[i].name != "" && '/' !in es[i].name && es[i].isDirectory
    ensures forall k :: 0 <= k < |es[i].children| ==> es[i].children[k] == 3 * i + k + 1
  {
    if i == 0 {
      assert es[0] == Entry(RootName, true, [1, 2, 3]);
    } else if i == 1 {
      assert es[1] == Entry("Documents", true, [4, 5, 6]);
    } else {
      assert es[2] == Entry("Images", true, [7, 8]);
    }
  }

  lemma {:induction false} SampleLeaf(es: seq<Entry>, i: nat)
    requires es == SampleTree() && 3 <= i < 9
    ensures es[i].name != "" && '/' !in es[i].name && es[i].children == []
  {
    if i == 3 {
      assert es[3] == Entry("readme.txt", false, []);
    } else if i == 4 {
      assert es[4] == Entry("Work", true, []);
    } else if i == 5 {
      assert es[5] == Entry("Personal", true, []);
    } else if i == 6 {
      assert es[6] == Entry("notes.txt", false, []);
    } else if i == 7 {
      assert es[7] == Entry("Vacation", true, []);
    } else {
      assert es[8] == Entry("photo1.jpg", false, []);
    }
  }

  lemma {:induction false} SampleSiblings(es: seq<Entry>)
    requires es == SampleTree()
    ensures Ordered(es) && SiblingNamesUnique(es)
  {
    SampleShape(es);
    forall i, a, b | 0 <= i < |es| && 0 <= a < b < |es[i].children|
      ensures es[es[i].children[a]].name != es[es[i].children[b]].name
    {
      SampleNode(es, i);
      SampleNamesDiffer(es, 3 * i + a + 1, 3 * i + b + 1);
    }
  }

  lemma {:induction false} SampleNamesDiffer(es: seq<Entry>, x: nat, y: nat)
    requires es == SampleTree() && x < y < 9
    ensures es[x].name != es[y].name
  {
  }

  lemma {:induction false} SampleSingleParent(es: seq<Entry>)
    requires es == SampleTree()
    ensures SingleParent(es)
  {
    forall i, j, a, b |
      0 <= i < |es| && 0 <= j < |es| && 0 <= a < |es[i].children| && 0 <= b < |es[j].children| &&
      es[i].children[a] == es[j].children[b]
      ensures i == j && a == b
    {
      SampleNode(es, i);
      SampleNode(es, j);
    }
  }

  /** None of the sample's top-level names is inherited, so the server answers GET
      /api/filesystem. */
  lemma {:induction false} SampleServed(es: seq<Entry>)
    requires es == SampleTree()
    ensures Valid(es) && WellNamed(es) && ServedFileSystem(es).Some?
  {
    SampleValid(es);
    assert es[RootId].children == [1, 2, 3];
    assert es[1].name == "Documents" && es[2].name == "Images" && es[3].name == "readme.txt";
    ServedWhenNoInheritedNames(es);
  }

  /** At Documents the client shows Work, Personal and notes.txt, in push order. */
  lemma {:induction false} SampleDocuments(es: seq<Entry>)
    requires es == SampleTree()
    ensures Valid(es) && ServedFileSystem(es).Some?
    ensures CurrentItems(ServedFileSystem(es).value, ["Documents"]) ==
              Listed([Item("Work", Directory), Item("Personal", Directory), Item("notes.txt", File)])
  {
    SampleServed(es);
    DocumentsWalk(es);
    DocumentsKey(es, ServedFileSystem(es).value);
  }

  lemma {:induction false} DocumentsKey(es: seq<Entry>, fs: FileSystem)
    requires Valid(es) && WellNamed(es) && ServedFileSystem(es) == Some(fs)
    requires IsDirAt(es, ["Documents"]) && Resolve(es, RootId, ["Documents"]) == Some(1)
    requires Listing(es, 1) == [Item("Work", Directory), Item("Personal", Directory), Item("notes.txt", File)]
    ensures CurrentItems(fs, ["Documents"]) ==
              Listed([Item("Work", Directory), Item("Personal", Directory), Item("notes.txt", File)])
  {
    assert Join(["Documents"]) == "Documents";
    assert "Documents" !in ProtoKeys;
    CurrentItemsMatchServer(es, fs, ["Documents"]);
  }

  /** A file gets no key: a path naming readme.txt shows nothing. */
  lemma {:induction false} SampleReadme(es: seq<Entry>)
    requires es == SampleTree()
    ensures Valid(es) && ServedFileSystem(es).Some?
    ensures CurrentItems(ServedFileSystem(es).value, ["readme.txt"]) == Listed([])
  {
    SampleServed(es);
    ReadmeWalk(es);
    ReadmeKey(es, ServedFileSystem(es).value);
  }

  lemma {:induction false} ReadmeKey(es: seq<Entry>, fs: FileSystem)
    requires Valid(es) && WellNamed(es) && ServedFileSystem(es) == Some(fs)
    requires !IsDirAt(es, ["readme.txt"])
    ensures CurrentItems(fs, ["readme.txt"]) == Listed([])
  {
    assert Join(["readme.txt"]) == "readme.txt";
    assert "readme.txt" !in ProtoKeys;
    CurrentItemsMatchServer(es, fs, ["readme.txt"]);
  }

  /** A nested empty directory has its own key, holding an empty list. */
  lemma {:induction false} SampleVacation(es: seq<Entry>)
    requires es == SampleTree()
    ensures Valid(es) && ServedFileSystem(es).Some?
    ensures "Images/Vacation" in ServedFileSystem(es).value && ServedFileSystem(es).value["Images/Vacation"] == []
  {
    VacationShapeHolds(es);
    VacationFromShape(es);
  }

  /** What the sample's walk to Images/Vacation establishes, stated on any tree. */
  ghost predicate VacationShape(es: seq<Entry>)
  {
    Valid(es) && WellNamed(es) && ServedFileSystem(es).Some?
    && IsDirAt(es, ["Images", "Vacation"]) && Resolve(es, RootId, ["Images", "Vacation"]) == Some(7)
    && Listing(es, 7) == []
  }

  lemma {:induction false} VacationShapeHolds(es: seq<Entry>)
    requires es == SampleTree()
    ensures VacationShape(es)
  {
    SampleServed(es);
    VacationWalk(es);
  }

  lemma {:induction false} VacationFromShape(es: seq<Entry>)
    requires VacationShape(es)
    ensures "Images/Vacation" in ServedFileSystem(es).value && ServedFileSystem(es).value["Images/Vacation"] == []
  {
    VacationPath();
    VacationKey(es, ServedFileSystem(es).value, "Images/Vacation", ["Images", "Vacation"]);
  }

  lemma {:induction false} VacationKey(es: seq<Entry>, fs: FileSystem, k: string, path: seq<string>)
    requires Valid(es) && WellNamed(es) && ServedFileSystem(es) == Some(fs)
    requires k !in ProtoKeys && ServerPath(k) == path
    requires IsDirAt(es, path) && Resolve(es, RootId, path) == Some(7)
    ensures k in fs && fs[k] == Listing(es, 7)
  {
    ServedAgrees(es, fs, k);
  }

  /** An empty top-level directory called "constructor": the server answers, but its
      map has no key for it, so the client's lookup yields `Object.prototype.constructor`
      and rendering the directory fails. */
  lemma {:induction false} EmptyConstructorFailsToRender(es: seq<Entry>)
    requires es == [Entry(RootName, true, [1]), Entry("constructor", true, [])]
    ensures Valid(es) && IsDirAt(es, ["constructor"]) && ServedFileSystem(es).Some?
    ensures "constructor" !in ServedFileSystem(es).value
    ensures CurrentItems(ServedFileSystem(es).value, ["constructor"]) == Inherited("constructor")
    ensures Render(CurrentItems(ServedFileSystem(es).value, ["constructor"])) == RenderFails
  {
    EmptyConstructorServed(es);
    var fs := ServedFileSystem(es).value;
    assert Join(["constructor"]) == "constructor";
    ServedAgrees(es, fs, "constructor");
    CurrentItemsMatchServer(es, fs, ["constructor"]);
  }

  lemma {:induction false} EmptyConstructorServed(es: seq<Entry>)
    requires es == [Entry(RootName, true, [1]), Entry("constructor", true, [])]
    ensures Valid(es) && WellNamed(es) && IsDirAt(es, ["constructor"]) && ServedFileSystem(es).Some?
  {
    ConstructorStep(es);
    forall n ensures !ThrowsAt(es, n) {
      if Resolve(es, RootId, [n]).Some? {
        assert [n][1..] == [];
        assert Step(es, RootId, n) == Some(1);
      }
    }
    ServedFails(es);
  }

  /** Once "constructor" at the top level has a child, GET /api/filesystem answers 500. */
  lemma {:induction false} ConstructorWithChildFails(es: seq<Entry>)
    requires es == [Entry(RootName, true, [1]), Entry("constructor", true, [2]), Entry("a.txt", false, [])]
    ensures Valid(es) && ServedFileSystem(es).None?
  {
    ConstructorStep(es);
    ServedFails(es);
    assert ThrowsAt(es, "constructor");
  }

  /** The first two nodes of both "constructor" trees. */
  lemma {:induction false} ConstructorStep(es: seq<Entry>)
    requires |es| >= 2 && es[0] == Entry(RootName, true, [1]) && es[1].name == "constructor" && es[1].isDirectory
    requires forall i :: 1 <= i < |es| ==> forall k :: 0 <= k < |es[i].children| ==> i < es[i].children[k] < |es|
    requires forall i :: 1 <= i < |es| ==> (!es[i].isDirectory ==> es[i].children == [])
    requires forall i :: 1 <= i < |es| ==> es[i].name != "" && '/' !in es[i].name
    requires |es| == 2 || (|es| == 3 && es[1].children == [2] && es[2].children == [])
    ensures Valid(es) && WellNamed(es)
    ensures Resolve(es, RootId, ["constructor"]) == Some(1) && IsDirAt(es, ["constructor"])
  {
    FirstNamedIs(es, es[0].children, "constructor", 0);
    assert ["constructor"][1..] == [];
  }

  lemma {:induction false} DocumentsWalk(es: seq<Entry>)
    requires es == SampleTree() && Ordered(es)
    ensures IsDirAt(es, ["Documents"]) && Resolve(es, RootId, ["Documents"]) == Some(1)
    ensures Listing(es, 1) == [Item("Work", Directory), Item("Personal", Directory), Item("notes.txt", File)]
  {
    RootSteps(es);
    assert ["Documents"][1..] == [];
    assert es[1] == Entry("Documents", true, [4, 5, 6]);
    assert es[4] == Entry("Work", true, []);
    assert es[5] == Entry("Personal", true, []);
    assert es[6] == Entry("notes.txt", false, []);
  }

  lemma {:induction false} ReadmeWalk(es: seq<Entry>)
    requires es == SampleTree() && Ordered(es)
    ensures Resolve(es, RootId, ["readme.txt"]) == Some(3) && !IsDirAt(es, ["readme.txt"])
  {
    RootSteps(es);
    assert ["readme.txt"][1..] == [];
    assert es[3] == Entry("readme.txt", false, []);
  }

  lemma {:induction false} VacationWalk(es: seq<Entry>)
    requires es == SampleTree() && Ordered(es)
    ensures IsDirAt(es, ["Images", "Vacation"]) && Resolve(es, RootId, ["Images", "Vacation"]) == Some(7)
    ensures Listing(es, 7) == []
  {
    RootSteps(es);
    ImagesSteps(es);
    assert ["Images", "Vacation"][1..] == ["Vacation"];
    assert es[7] == Entry("Vacation", true, []);
  }

  lemma {:induction false} RootSteps(es: seq<Entry>)
    requires es == SampleTree() && Ordered(es)
    ensures Step(es, RootId, "Documents") == Some(1)
    ensures Step(es, RootId, "Images") == Some(2)
    ensures Step(es, RootId, "readme.txt") == Some(3)
  {
    assert es[0] == Entry(RootName, true, [1, 2, 3]);
    assert es[1].name == "Documents" && es[2].name == "Images" && es[3].name == "readme.txt";
    FirstNamedIs(es, es[0].children, "Documents", 0);
    FirstNamedIs(es, es[0].children, "Images", 1);
    FirstNamedIs(es, es[0].children, "readme.txt", 2);
  }

  lemma {:induction false} ImagesSteps(es: seq<Entry>)
    requires es == SampleTree() && Ordered(es)
    ensures Step(es, 2, "Vacation") == Some(7)
    ensures Resolve(es, 2, ["Vacation"]) == Some(7)
  {
    assert es[2] == Entry("Images", true, [7, 8]);
    assert es[7].name == "Vacation";
    FirstNamedIs(es, es[2].children, "Vacation", 0);
    assert ["Vacation"][1..] == [];
  }

  lemma {:induction false} VacationPath()
    ensures ServerPath("Images/Vacation") == ["Images", "Vacation"]
    ensures "Images/Vacation" !in ProtoKeys
  {
    SlashNotInherited("Images/Vacation", 6);
    var vacation := ["Images", "Vacation"];
    assert Join(vacation) == "Images/Vacation";
    RequestPathRoundTrip(vacation);
  }

  // ---------------------------------------------------------------------------
  // A name holding '/'

  /** ROOT holds the directories "a" (holding "b", which holds the file x) and "a/b",
      empty. The server builds it from the bare root: add "a", "a/b" and then "b" under
      "a"; the add of x at path "a/b" is split into ["a", "b"] and lands in a's "b". */
  function SlashTree(): seq<Entry>
  {
    [ Entry(RootName, true, [1, 2]),
      Entry("a", true, [3]),
      Entry("a/b", true, []),
      Entry("b", true, [4]),
      Entry("x", false, []) ]
  }

  /** Both "a/b" and a's "b" push under the key "a/b": clicking the empty top-level
      directory "a/b" shows x, a file it does not hold. */
  lemma {:induction false} SlashNamesShareKey(es: seq<Entry>)
    requires es == SlashTree()
    ensures Valid(es) && ServedFileSystem(es).Some?
    ensures Item("a/b", Directory) in Listing(es, RootId) && Listing(es, 2) == []
    ensures Shown(ServedFileSystem(es).value, NavigateToDirectory([], "a/b")) == [Item("x", File)]
  {
    SlashValid(es);
    assert es[1].name == "a" && es[2].name == "a/b";
    assert "a" !in ProtoKeys && "a/b" !in ProtoKeys;
    ServedWhenNoInheritedNames(es);
    assert Listing(es, RootId)[1] == Item("a/b", Directory);
    SlashKey(es);
    var fs := ServedFileSystem(es).value;
    assert fs["a/b"] == FileSystemOf(es)["a/b"];
    assert NavigateToDirectory([], "a/b") == ["a/b"];
    assert Join(["a/b"]) == "a/b";
  }

  lemma {:induction false} SlashValid(es: seq<Entry>)
    requires es == SlashTree()
    ensures Valid(es)
  {
    SlashShape(es);
    SlashSiblings(es);
    SlashSingleParent(es);
  }

  lemma {:induction false} SlashShape(es: seq<Entry>)
    requires es == SlashTree()
    ensures Ordered(es) && FilesAreLeaves(es) && NamesNonEmpty(es)
  {
    forall i | 0 <= i < |es|
      ensures es[i].name != ""
      ensures forall k :: 0 <= k < |es[i].children| ==> i < es[i].children[k] < |es|
      ensures !es[i].isDirectory ==> es[i].children == []
    {
      SlashNode(es, i);
    }
  }

  lemma {:induction false} SlashSiblings(es: seq<Entry>)
    requires es == SlashTree()
    ensures Ordered(es) && SiblingNamesUnique(es)
  {
    SlashShape(es);
    forall i, a, b | 0 <= i < |es| && 0 <= a < b < |es[i].children|
      ensures es[es[i].children[a]].name != es[es[i].children[b]].name
    {
      SlashNode(es, i);
    }
  }

  lemma {:induction false} SlashSingleParent(es: seq<Entry>)
    requires es == SlashTree()
    ensures SingleParent(es)
  {
    forall i, j, a, b |
      0 <= i < |es| && 0 <= j < |es| && 0 <= a < |es[i].children| && 0 <= b < |es[j].children| &&
      es[i].children[a] == es[j].children[b]
      ensures i == j && a == b
    {
      SlashNode(es, i);
      SlashNode(es, j);
    }
  }

  /** Node `i` of the tree: its children, and its kind. */
  lemma {:induction false} SlashNode(es: seq<Entry>, i: nat)
    requires es == SlashTree() && i < 5
    ensures |es| == 5 && es[i].name != "" && (es[i].isDirectory <==> i != 4)
    ensures es[i].children == if i == 0 then [1, 2] else if i == 1 then [3] else if i == 3 then [4] else []
    ensures i == 0 ==> es[1].name != es[2].name
  {
    if i == 0 {
      assert es[0] == Entry(RootName, true, [1, 2]);
      assert es[1].name == "a" && es[2].name == "a/b";
    } else if i == 1 {
      assert es[1] == Entry("a", true, [3]);
    } else if i == 2 {
      assert es[2] == Entry("a/b", true, []);
    } else if i == 3 {
      assert es[3] == Entry("b", true, [4]);
    } else {
      assert es[4] == Entry("x", false, []);
    }
  }

  /** The flattened tree holds x under "a/b": a's "b" pushes it, and the top-level
      "a/b" pushes its empty listing after it. */
  lemma {:induction false} SlashKey(es: seq<Entry>)
    requires es == SlashTree() && Valid(es)
    ensures "a/b" in FileSystemOf(es) && FileSystemOf(es)["a/b"] == [Item("x", File)]
  {
    var rs := SlashRecords(es);
    FlattenListings(es, "a/b");
    SlashKeyed(rs);
  }

  /** Of the tree's records, the two whose paths join to "a/b", in order. */
  lemma {:induction false} SlashKeyed(rs: seq<DirRecord>)
    requires rs == [ DirRecord([], [Item("a", Directory), Item("a/b", Directory)]),
                     DirRecord(["a"], [Item("b", Directory)]),
                     DirRecord(["a", "b"], [Item("x", File)]),
                     DirRecord(["a/b"], []) ]
    ensures ListingsKeyed(rs, "a/b") == [[Item("x", File)], []]
    ensures Concat(ListingsKeyed(rs, "a/b")) == [Item("x", File)]
  {
    var x := [Item("x", File)];
    assert Join([]) == "" && Join(["a"]) == "a" && Join(["a/b"]) == "a/b";
    assert Join(["a", "b"]) == "a/b" by {
      assert ["a", "b"][1..] == ["b"];
    }
    var r1 := rs[1..];
    var r2 := r1[1..];
    var r3 := r2[1..];
    assert r2[0] == DirRecord(["a", "b"], x) && r3 == [DirRecord(["a/b"], [])];
    assert ListingsKeyed(rs, "a/b") == ListingsKeyed(r1, "a/b");
    assert ListingsKeyed(r1, "a/b") == ListingsKeyed(r2, "a/b");
    assert ListingsKeyed(r2, "a/b") == [x] + ListingsKeyed(r3, "a/b");
    assert r3[1..] == [];
    assert ListingsKeyed(r3, "a/b") == [[]] + ListingsKeyed([], "a/b");
    assert Concat([x, []]) == x by {
      assert [x, []][1..] == [[]];
      assert Concat([[]]) == [] + Concat([]);
    }
  }

  /** The directory records of the tree, in depth-first order. */
  lemma {:induction false} SlashRecords(es: seq<Entry>) returns (rs: seq<DirRecord>)
    requires es == SlashTree() && Valid(es)
    ensures rs == DirsOf(es, RootId, [])
    ensures rs == [ DirRecord([], [Item("a", Directory), Item("a/b", Directory)]),
                    DirRecord(["a"], [Item("b", Directory)]),
                    DirRecord(["a", "b"], [Item("x", File)]),
                    DirRecord(["a/b"], []) ]
  {
    var b := SlashB(es);
    var a := SlashA(es, b);
    var ab := DirsOf(es, 2, ["a/b"]);
    assert ab == [DirRecord(["a/b"], [])] by {
      SlashNode(es, 2);
      assert Listing(es, 2) == [];
      assert ChildDirs(es, 2, [], ["a/b"]) == [];
    }
    SlashNode(es, 0);
    assert Listing(es, RootId) == [ItemOf(es[1]), ItemOf(es[2])];
    assert ChildDirs(es, RootId, [1, 2], []) == a + ab by {
      assert [1, 2][..1] == [1] && [1][..0] == [];
      assert [] + ["a"] == ["a"] && [] + ["a/b"] == ["a/b"];
      assert ChildDirs(es, RootId, [], []) == [];
      assert Below(es, 1, []) == a && Below(es, 2, []) == ab;
    }
    rs := DirsOf(es, RootId, []);
  }

  /** The records at or below a's "b": its own only, holding x. */
  lemma {:induction false} SlashB(es: seq<Entry>) returns (b: seq<DirRecord>)
    requires es == SlashTree() && Valid(es)
    ensures b == DirsOf(es, 3, ["a", "b"]) && b == [DirRecord(["a", "b"], [Item("x", File)])]
  {
    SlashNode(es, 3);
    SlashNode(es, 4);
    assert Listing(es, 3) == [ItemOf(es[4])];
    assert ChildDirs(es, 3, [4], ["a", "b"]) == [] by {
      assert [4][..0] == [];
      assert ChildDirs(es, 3, [], ["a", "b"]) == [];
      assert Below(es, 4, ["a", "b"]) == [];
    }
    b := DirsOf(es, 3, ["a", "b"]);
  }

  /** The records at or below "a": its own, then those of its "b". */
  lemma {:induction false} SlashA(es: seq<Entry>, b: seq<DirRecord>) returns (a: seq<DirRecord>)
    requires es == SlashTree() && Valid(es) && b == DirsOf(es, 3, ["a", "b"])
    ensures a == DirsOf(es, 1, ["a"]) && a == [DirRecord(["a"], [Item("b", Directory)])] + b
  {
    SlashNode(es, 1);
    SlashNode(es, 3);
    assert Listing(es, 1) == [ItemOf(es[3])];
    assert ChildDirs(es, 1, [3], ["a"]) == b by {
      assert [3][..0] == [];
      assert ["a"] + ["b"] == ["a", "b"];
      assert ChildDirs(es, 1, [], ["a"]) == [];
      assert Below(es, 3, ["a"]) == b;
    }
    a := DirsOf(es, 1, ["a"]);
  }
}
