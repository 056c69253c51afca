/**
 * The mapper's unit-test cases, restated as facts about the model.  The
 * pathmaker is a parameter; each lemma constrains it only on the names the
 * case feeds it (a name ending in '/' gives its directory and no leaf, any
 * other name gives its last segment as the leaf).
 */
module Scenarios {
  import opened Wrappers
  import opened Paths
  import opened Tree
  import opened Mapper

  lemma LoadAllSnoc(opts: Options, archivePath: string, archiveBase: string,
                    d: map<string, Node>, infos: seq<Info>, info: Info)
    ensures LoadAll(opts, archivePath, archiveBase, d, infos + [info])
         == LoadEntry(opts, archivePath, archiveBase, LoadAll(opts, archivePath, archiveBase, d, infos), info)
  {
    assert (infos + [info])[..|infos|] == infos;
  }

  /** A root-level leaf that is new, or any root-level leaf under `overwrite`, is written. */
  lemma LoadAtRoot(opts: Options, archivePath: string, archiveBase: string,
                   d: map<string, Node>, info: Info, leaf: string)
    requires EntryPath(opts, archiveBase, info) == PathSplit([], leaf) && leaf != ""
    requires opts.overwrite || leaf !in d
    ensures LoadEntry(opts, archivePath, archiveBase, d, info) == d[leaf := File(archivePath, info.filename, info.fileSize)]
  {
  }

  /** A directory entry for a new root-level name makes an empty directory. */
  lemma LoadDirectoryEntry(opts: Options, archivePath: string, archiveBase: string,
                           d: map<string, Node>, info: Info, name: string)
    requires EntryPath(opts, archiveBase, info) == PathSplit([name], "") && name !in d
    ensures LoadEntry(opts, archivePath, archiveBase, d, info) == d[name := Dir(map[])]
  {
    assert [name][1..] == [];
    assert EnsureDir(map[], []) == Some(map[]);
    assert EnsureDir(d, [name]) == Some(d[name := Dir(map[])]);
  }

  /** A leaf under the root-level directory `name`, new there. */
  lemma LoadUnder(opts: Options, archivePath: string, archiveBase: string,
                  d: map<string, Node>, c: map<string, Node>, info: Info, name: string, leaf: string)
    requires EntryPath(opts, archiveBase, info) == PathSplit([name], leaf) && leaf != ""
    requires name in d && d[name] == Dir(c) && leaf !in c
    ensures LoadEntry(opts, archivePath, archiveBase, d, info)
         == d[name := Dir(c[leaf := File(archivePath, info.filename, info.fileSize)])]
  {
    assert EnsureDir(d, [name]) == Some(d) by {
      assert EnsureDir(c, []) == Some(c);
      assert d[name := Dir(c)] == d;
    }
    assert Resolve(Dir(d), [name]) == Some(Dir(c));
    assert PutAt(d, [name], leaf, File(archivePath, info.filename, info.fileSize))
        == d[name := Dir(c[leaf := File(archivePath, info.filename, info.fileSize)])];
  }

  lemma LoadUnderStep(opts: Options, archivePath: string, archiveBase: string,
                      prefix: seq<Info>, c: map<string, Node>, info: Info, leaf: string)
    requires LoadAll(opts, archivePath, archiveBase, map[], prefix) == map["demo" := Dir(c)]
    requires EntryPath(opts, archiveBase, info) == PathSplit(["demo"], leaf) && leaf != "" && leaf !in c
    ensures LoadAll(opts, archivePath, archiveBase, map[], prefix + [info])
         == map["demo" := Dir(c[leaf := File(archivePath, info.filename, info.fileSize)])]
  {
    LoadAllSnoc(opts, archivePath, archiveBase, map[], prefix, info);
    LoadUnder(opts, archivePath, archiveBase, map["demo" := Dir(c)], c, info, "demo", leaf);
  }

  /** The empty path is the root; a missing name resolves to nothing. */
  lemma NullTraverse()
    ensures Resolve(Dir(map[]), SplitPath("")) == Some(Dir(map[]))
    ensures Resolve(Dir(map[]), SplitPath("nowhere")) == None
  {
    SplitWithoutSlash("nowhere");
  }

  /** `mkdir(['1', '2', '3'])` twice: the nested directories, then no change. */
  lemma MkdirTwice()
    ensures EnsureDir(map[], ["1", "2", "3"]) == Some(map["1" := Dir(map["2" := Dir(map["3" := Dir(map[])])])])
    ensures EnsureDir(EnsureDir(map[], ["1", "2", "3"]).value, ["1", "2", "3"]) == EnsureDir(map[], ["1", "2", "3"])
  {
    EnsureDirIdempotent(map[], ["1", "2", "3"]);
  }

  /** A file leaf named `notdir` blocks `mkdir` through it, also for the single fragment. */
  lemma MkdirThroughFile()
    ensures EnsureDir(map["notdir" := File("somezip.zip", "afile", 1)], ["notdir", "2", "3"]).None?
    ensures EnsureDir(map["notdir" := File("somezip.zip", "afile", 1)], ["notdir"]).None?
  {
  }

  /** Listing the root gives every root-level name, file or directory. */
  lemma ReaddirRoot()
    ensures var d := map["1" := Dir(map[]), "notdir" := File("somezip.zip", "afile", 1)];
      Children(Resolve(Dir(d), SplitPath(""))) == {"1", "notdir"}
  {
  }

  /** Listing a file gives nothing. */
  lemma ReaddirFile()
    ensures var d := map["1" := Dir(map[]), "notdir" := File("somezip.zip", "afile", 1)];
      Children(Resolve(Dir(d), SplitPath("notdir"))) == {}
  {
    var d := map["1" := Dir(map[]), "notdir" := File("somezip.zip", "afile", 1)];
    SplitWithoutSlash("notdir");
    assert Resolve(Dir(d), ["notdir"]) == Some(d["notdir"]);
  }

  /** Listing a missing name gives nothing. */
  lemma ReaddirMissing()
    ensures var d := map["1" := Dir(map[]), "notdir" := File("somezip.zip", "afile", 1)];
      Children(Resolve(Dir(d), SplitPath("nowhere"))) == {}
  {
    var d := map["1" := Dir(map[]), "notdir" := File("somezip.zip", "afile", 1)];
    SplitWithoutSlash("nowhere");
    assert "nowhere" !in d;
    assert Resolve(Dir(d), ["nowhere"]) == None;
  }

  /**
   * A fresh mapper lists nothing at the root, and after `mkdir(['1'])` it
   * lists `1`.
   */
  lemma ReaddirFresh()
    ensures Children(Resolve(Dir(map[]), SplitPath(""))) == {}
    ensures Children(Resolve(Dir(EnsureDir(map[], ["1"]).value), SplitPath(""))) == {"1"}
  {
    assert EnsureDir(map[], ["1"]) == Some(map["1" := Dir(map[])]) by {
      assert ["1"][1..] == [];
    }
  }

  /** `mkdir(['1'])` then `mkdir(['2'])` on a fresh tree: two empty root directories. */
  lemma MkdirOneTwo()
    ensures EnsureDir(EnsureDir(map[], ["1"]).value, ["2"]) == Some(map["1" := Dir(map[]), "2" := Dir(map[])])
  {
    assert EnsureDir(map[], ["1"]) == Some(map["1" := Dir(map[])]) by {
      assert ["1"][1..] == [];
    }
    assert ["2"][1..] == [];
  }

  /**
   * Listing nested directories made by `mkdir(['1'])`, `mkdir(['2'])` and
   * `mkdir(['3', '4', '5'])` in turn.
   */
  lemma ReaddirNested()
    ensures var d1 := EnsureDir(map[], ["1"]).value;
      var d2 := EnsureDir(d1, ["2"]).value;
      var d := EnsureDir(d2, ["3", "4", "5"]).value;
      && Children(Resolve(Dir(d), SplitPath(""))) == {"1", "2", "3"}
      && Children(Resolve(Dir(d), SplitPath("3"))) == {"4"}
      && Children(Resolve(Dir(d), SplitPath("3/4"))) == {"5"}
  {
    MkdirOneTwo();
    SplitWithoutSlash("3");
    SplitWithoutSlash("4");
    SplitAtFirstSlash("3", "4");
    assert "3" + "/" + "4" == "3/4";
  }

  /** The first three flat entries become three file leaves at the root. */
  lemma LoadFlatStart(pm: string -> PathSplit)
    requires pm("file1") == PathSplit([], "file1") && pm("file2") == PathSplit([], "file2")
    requires pm("file3") == PathSplit([], "file3")
    ensures var a := "/tmp/demo1.zip";
      LoadAll(Options(false, false, pm), a, "demo1.zip", map[], [Info("file1", 33), Info("file2", 33), Info("file3", 33)])
      == map["file1" := File(a, "file1", 33), "file2" := File(a, "file2", 33), "file3" := File(a, "file3", 33)]
  {
    var o, a, b := Options(false, false, pm), "/tmp/demo1.zip", "demo1.zip";
    var i1, i2, i3 := Info("file1", 33), Info("file2", 33), Info("file3", 33);
    var s0: map<string, Node> := map[];
    var s1 := s0["file1" := File(a, "file1", 33)];
    var s2 := s1["file2" := File(a, "file2", 33)];
    assert LoadAll(o, a, b, s0, [i1]) == s1 by {
      LoadAllSnoc(o, a, b, s0, [], i1);
      assert [] + [i1] == [i1];
      LoadAtRoot(o, a, b, s0, i1, "file1");
    }
    assert LoadAll(o, a, b, s0, [i1, i2]) == s2 by {
      LoadAllSnoc(o, a, b, s0, [i1], i2);
      assert [i1] + [i2] == [i1, i2];
      LoadAtRoot(o, a, b, s1, i2, "file2");
    }
    LoadAllSnoc(o, a, b, s0, [i1, i2], i3);
    assert [i1, i2] + [i3] == [i1, i2, i3];
    LoadAtRoot(o, a, b, s2, i3, "file3");
  }

  /** Six flat entries of one archive become six file leaves at the root. */
  lemma LoadFlat(pm: string -> PathSplit)
    requires pm("file1") == PathSplit([], "file1") && pm("file2") == PathSplit([], "file2")
    requires pm("file3") == PathSplit([], "file3") && pm("file4") == PathSplit([], "file4")
    requires pm("file5") == PathSplit([], "file5") && pm("file6") == PathSplit([], "file6")
    ensures var a := "/tmp/demo1.zip";
      LoadAll(Options(false, false, pm), a, "demo1.zip", map[],
              [Info("file1", 33), Info("file2", 33), Info("file3", 33),
               Info("file4", 33), Info("file5", 33), Info("file6", 33)])
      == map["file1" := File(a, "file1", 33), "file2" := File(a, "file2", 33),
             "file3" := File(a, "file3", 33), "file4" := File(a, "file4", 33),
             "file5" := File(a, "file5", 33), "file6" := File(a, "file6", 33)]
  {
    var o, a, b := Options(false, false, pm), "/tmp/demo1.zip", "demo1.zip";
    var p3 := [Info("file1", 33), Info("file2", 33), Info("file3", 33)];
    var i4, i5, i6 := Info("file4", 33), Info("file5", 33), Info("file6", 33);
    var s3 := map["file1" := File(a, "file1", 33), "file2" := File(a, "file2", 33), "file3" := File(a, "file3", 33)];
    var s4 := s3["file4" := File(a, "file4", 33)];
    var s5 := s4["file5" := File(a, "file5", 33)];
    LoadFlatStart(pm);
    LoadAllSnoc(o, a, b, map[], p3, i4);
    LoadAtRoot(o, a, b, s3, i4, "file4");
    LoadAllSnoc(o, a, b, map[], p3 + [i4], i5);
    LoadAtRoot(o, a, b, s4, i5, "file5");
    LoadAllSnoc(o, a, b, map[], p3 + [i4] + [i5], i6);
    LoadAtRoot(o, a, b, s5, i6, "file6");
    assert p3 + [i4] + [i5] + [i6] == [p3[0], p3[1], p3[2], i4, i5, i6];
  }

  /** The first half of the nested case: the directory entry and three leaves under it. */
  lemma LoadNestedStart(pm: string -> PathSplit)
    requires pm("demo/") == PathSplit(["demo"], "")
    requires pm("demo/file3") == PathSplit(["demo"], "file3") && pm("demo/file4") == PathSplit(["demo"], "file4")
    requires pm("demo/file5") == PathSplit(["demo"], "file5")
    ensures var a := "/tmp/demo2.zip";
      LoadAll(Options(false, false, pm), a, "demo2.zip", map[],
              [Info("demo/", 0), Info("demo/file4", 33), Info("demo/file3", 33), Info("demo/file5", 33)])
      == map["demo" := Dir(map["file4" := File(a, "demo/file4", 33), "file3" := File(a, "demo/file3", 33),
                               "file5" := File(a, "demo/file5", 33)])]
  {
    var o, a, b := Options(false, false, pm), "/tmp/demo2.zip", "demo2.zip";
    var i0, i4, i3, i5 := Info("demo/", 0), Info("demo/file4", 33), Info("demo/file3", 33), Info("demo/file5", 33);
    var s0, c0: map<string, Node> := map[], map[];
    var c1 := c0["file4" := File(a, "demo/file4", 33)];
    var c2 := c1["file3" := File(a, "demo/file3", 33)];
    assert LoadAll(o, a, b, s0, [i0]) == map["demo" := Dir(c0)] by {
      LoadAllSnoc(o, a, b, s0, [], i0);
      assert [] + [i0] == [i0];
      LoadDirectoryEntry(o, a, b, s0, i0, "demo");
    }
    LoadUnderStep(o, a, b, [i0], c0, i4, "file4");
    LoadUnderStep(o, a, b, [i0] + [i4], c1, i3, "file3");
    LoadUnderStep(o, a, b, [i0] + [i4] + [i3], c2, i5, "file5");
    assert [i0] + [i4] + [i3] + [i5] == [i0, i4, i3, i5];
  }

  /** The nested case continued: `demo/file6` is added under the directory. */
  lemma LoadNestedSixth(pm: string -> PathSplit)
    requires pm("demo/") == PathSplit(["demo"], "")
    requires pm("demo/file3") == PathSplit(["demo"], "file3") && pm("demo/file4") == PathSplit(["demo"], "file4")
    requires pm("demo/file5") == PathSplit(["demo"], "file5") && pm("demo/file6") == PathSplit(["demo"], "file6")
    ensures var a := "/tmp/demo2.zip";
      LoadAll(Options(false, false, pm), a, "demo2.zip", map[],
              [Info("demo/", 0), Info("demo/file4", 33), Info("demo/file3", 33), Info("demo/file5", 33),
               Info("demo/file6", 33)])
      == map["demo" := Dir(map["file4" := File(a, "demo/file4", 33), "file3" := File(a, "demo/file3", 33),
                               "file5" := File(a, "demo/file5", 33)]["file6" := File(a, "demo/file6", 33)])]
  {
    var o, a, b := Options(false, false, pm), "/tmp/demo2.zip", "demo2.zip";
    var p3 := [Info("demo/", 0), Info("demo/file4", 33), Info("demo/file3", 33), Info("demo/file5", 33)];
    var i6 := Info("demo/file6", 33);
    var c3 := map["file4" := File(a, "demo/file4", 33), "file3" := File(a, "demo/file3", 33),
                  "file5" := File(a, "demo/file5", 33)];
    LoadNestedStart(pm);
    LoadUnderStep(o, a, b, p3, c3, i6, "file6");
    assert p3 + [i6] == [p3[0], p3[1], p3[2], p3[3], i6];
  }

  /** The nested case continued: `demo/file1` is added under the directory. */
  lemma LoadNestedMore(pm: string -> PathSplit)
    requires pm("demo/") == PathSplit(["demo"], "")
    requires pm("demo/file1") == PathSplit(["demo"], "file1")
    requires pm("demo/file3") == PathSplit(["demo"], "file3") && pm("demo/file4") == PathSplit(["demo"], "file4")
    requires pm("demo/file5") == PathSplit(["demo"], "file5") && pm("demo/file6") == PathSplit(["demo"], "file6")
    ensures var a := "/tmp/demo2.zip";
      LoadAll(Options(false, false, pm), a, "demo2.zip", map[],
              [Info("demo/", 0), Info("demo/file4", 33), Info("demo/file3", 33), Info("demo/file5", 33),
               Info("demo/file6", 33), Info("demo/file1", 33)])
      == map["demo" := Dir(map["file4" := File(a, "demo/file4", 33), "file3" := File(a, "demo/file3", 33),
                               "file5" := File(a, "demo/file5", 33)]["file6" := File(a, "demo/file6", 33)]
                          ["file1" := File(a, "demo/file1", 33)])]
  {
    var o, a, b := Options(false, false, pm), "/tmp/demo2.zip", "demo2.zip";
    var p4 := [Info("demo/", 0), Info("demo/file4", 33), Info("demo/file3", 33), Info("demo/file5", 33),
               Info("demo/file6", 33)];
    var i1 := Info("demo/file1", 33);
    var c4 := map["file4" := File(a, "demo/file4", 33), "file3" := File(a, "demo/file3", 33),
                  "file5" := File(a, "demo/file5", 33)]["file6" := File(a, "demo/file6", 33)];
    LoadNestedSixth(pm);
    LoadUnderStep(o, a, b, p4, c4, i1, "file1");
    assert p4 + [i1] == [p4[0], p4[1], p4[2], p4[3], p4[4], i1];
  }

  /**
   * A directory entry followed by six entries under it: one directory
   * holding six leaves, each recording its full entry name.
   */
  lemma LoadNested(pm: string -> PathSplit)
    requires pm("demo/") == PathSplit(["demo"], "")
    requires pm("demo/file1") == PathSplit(["demo"], "file1") && pm("demo/file2") == PathSplit(["demo"], "file2")
    requires pm("demo/file3") == PathSplit(["demo"], "file3") && pm("demo/file4") == PathSplit(["demo"], "file4")
    requires pm("demo/file5") == PathSplit(["demo"], "file5") && pm("demo/file6") == PathSplit(["demo"], "file6")
    ensures var a := "/tmp/demo2.zip";
      LoadAll(Options(false, false, pm), a, "demo2.zip", map[],
              [Info("demo/", 0), Info("demo/file4", 33), Info("demo/file3", 33), Info("demo/file5", 33),
               Info("demo/file6", 33), Info("demo/file1", 33), Info("demo/file2", 33)])
      == map["demo" := Dir(map[
             "file1" := File(a, "demo/file1", 33), "file2" := File(a, "demo/file2", 33),
             "file3" := File(a, "demo/file3", 33), "file4" := File(a, "demo/file4", 33),
             "file5" := File(a, "demo/file5", 33), "file6" := File(a, "demo/file6", 33)])]
  {
    var o, a, b := Options(false, false, pm), "/tmp/demo2.zip", "demo2.zip";
    var p5 := [Info("demo/", 0), Info("demo/file4", 33), Info("demo/file3", 33), Info("demo/file5", 33),
               Info("demo/file6", 33), Info("demo/file1", 33)];
    var i2 := Info("demo/file2", 33);
    var c5 := map["file4" := File(a, "demo/file4", 33), "file3" := File(a, "demo/file3", 33),
                  "file5" := File(a, "demo/file5", 33)]["file6" := File(a, "demo/file6", 33)]
                 ["file1" := File(a, "demo/file1", 33)];
    LoadNestedMore(pm);
    LoadUnderStep(o, a, b, p5, c5, i2, "file2");
    assert p5 + [i2] == [p5[0], p5[1], p5[2], p5[3], p5[4], p5[5], i2];
    NestedListing(a);
  }

  lemma NestedListing(a: string)
    ensures map["file4" := File(a, "demo/file4", 33), "file3" := File(a, "demo/file3", 33),
                "file5" := File(a, "demo/file5", 33)]["file6" := File(a, "demo/file6", 33)]
                 ["file1" := File(a, "demo/file1", 33)]["file2" := File(a, "demo/file2", 33)]
         == map["file1" := File(a, "demo/file1", 33), "file2" := File(a, "demo/file2", 33),
                "file3" := File(a, "demo/file3", 33), "file4" := File(a, "demo/file4", 33),
                "file5" := File(a, "demo/file5", 33), "file6" := File(a, "demo/file6", 33)]
  {
  }

  /**
   * A file leaf `demo` loaded first blocks every entry under `demo/` of a
   * later archive: the tree stays exactly the one leaf.
   */
  lemma LoadDirFileConflict(pm: string -> PathSplit)
    requires pm("demo") == PathSplit([], "demo")
    requires pm("demo/") == PathSplit(["demo"], "")
    requires pm("demo/file1") == PathSplit(["demo"], "file1") && pm("demo/file2") == PathSplit(["demo"], "file2")
    ensures var o := Options(false, false, pm);
      var first := LoadAll(o, "/tmp/conflict.zip", "conflict.zip", map[], [Info("demo", 0)]);
      && first == map["demo" := File("/tmp/conflict.zip", "demo", 0)]
      && LoadAll(o, "/tmp/demo2.zip", "demo2.zip", first,
                 [Info("demo/", 0), Info("demo/file1", 33), Info("demo/file2", 33)]) == first
  {
    var o := Options(false, false, pm);
    LoadAllSnoc(o, "/tmp/conflict.zip", "conflict.zip", map[], [], Info("demo", 0));
    var first := map["demo" := File("/tmp/conflict.zip", "demo", 0)];
    var infos := [Info("demo/", 0), Info("demo/file1", 33), Info("demo/file2", 33)];
    forall j | 0 <= j < |infos| ensures IsPrefix(["demo"], EntryPath(o, "demo2.zip", infos[j]).frags) {
    }
    LoadAllBlocked(o, "/tmp/demo2.zip", "demo2.zip", first, infos, ["demo"]);
  }

  function Dummy(): map<string, Node>
  {
    map["file5" := File("dummy.zip", "file5", 1), "file6" := File("dummy.zip", "file6", 1),
        "file7" := File("dummy.zip", "file7", 1)]
  }

  /** Without `overwrite` the names already present keep their first writer. */
  lemma LoadOverDummyKeeps(pm: string -> PathSplit)
    requires pm("file1") == PathSplit([], "file1") && pm("file5") == PathSplit([], "file5")
    requires pm("file6") == PathSplit([], "file6")
    ensures var a := "/tmp/demo1.zip";
      LoadAll(Options(false, false, pm), a, "demo1.zip", Dummy(),
              [Info("file1", 33), Info("file5", 33), Info("file6", 33)])
      == Dummy()["file1" := File(a, "file1", 33)]
  {
    var o, a, b := Options(false, false, pm), "/tmp/demo1.zip", "demo1.zip";
    var i1, i5, i6 := Info("file1", 33), Info("file5", 33), Info("file6", 33);
    LoadAllSnoc(o, a, b, Dummy(), [], i1);
    LoadAllSnoc(o, a, b, Dummy(), [i1], i5);
    LoadAllSnoc(o, a, b, Dummy(), [i1, i5], i6);
  }

  /** With `overwrite` the later archive replaces the names it shares. */
  lemma LoadOverDummyReplaces(pm: string -> PathSplit)
    requires pm("file1") == PathSplit([], "file1") && pm("file5") == PathSplit([], "file5")
    requires pm("file6") == PathSplit([], "file6")
    ensures var a := "/tmp/demo1.zip";
      LoadAll(Options(true, false, pm), a, "demo1.zip", Dummy(),
              [Info("file1", 33), Info("file5", 33), Info("file6", 33)])
      == map["file1" := File(a, "file1", 33), "file5" := File(a, "file5", 33),
             "file6" := File(a, "file6", 33), "file7" := File("dummy.zip", "file7", 1)]
  {
    var o, a, b := Options(true, false, pm), "/tmp/demo1.zip", "demo1.zip";
    var i1, i5, i6 := Info("file1", 33), Info("file5", 33), Info("file6", 33);
    LoadAllSnoc(o, a, b, Dummy(), [], i1);
    LoadAllSnoc(o, a, b, Dummy(), [i1], i5);
    LoadAllSnoc(o, a, b, Dummy(), [i1, i5], i6);
  }

  /**
   * With `overwrite`, an entry whose leaf name is an existing directory
   * replaces that directory, and everything under it, by a file leaf.
   */
  lemma OverwriteReplacesDirectory(pm: string -> PathSplit)
    requires pm("a") == PathSplit([], "a")
    ensures LoadEntry(Options(true, false, pm), "/tmp/y.zip", "y.zip",
                      map["a" := Dir(map["b" := File("/tmp/x.zip", "a/b", 1)])], Info("a", 2))
         == map["a" := File("/tmp/y.zip", "a", 2)]
  {
  }

  /**
   * With `include_arcname` the tree path starts with the archive's base
   * name, but the leaf records the entry name as the archive spells it.
   */
  lemma IncludeArcname(pm: string -> PathSplit)
    requires pm("demo1.zip/file1") == PathSplit(["demo1.zip"], "file1")
    ensures LoadEntry(Options(false, true, pm), "/tmp/demo1.zip", "demo1.zip", map[], Info("file1", 33))
         == map["demo1.zip" := Dir(map["file1" := File("/tmp/demo1.zip", "file1", 33)])]
  {
    assert EffectiveName(Options(false, true, pm), "demo1.zip", Info("file1", 33)) == "demo1.zip/file1";
  }
}
