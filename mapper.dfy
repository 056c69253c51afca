/**
 * `DefaultMapper`: merges the entry names of zip archives into one
 * namespace tree.  The class holds the root directory (`mapping`) and the
 * configuration; `LoadEntry`/`LoadAll` say, on values, what loading an
 * entry list does to the tree, and the lemmas below state the merge policy.
 */
module Mapper {
  import opened Wrappers
  import opened Paths
  import opened Tree

  /** One archive entry as the zip reader lists it. */
  datatype Info = Info(filename: string, fileSize: nat)

  /**
   * What a pathmaker makes of an entry name: the directory fragments and the
   * leaf name, where "" stands for "no leaf" (a directory entry).
   */
  datatype PathSplit = PathSplit(frags: seq<string>, leaf: string)

  /** The constructor's configuration. */
  datatype Options = Options(overwrite: bool, includeArcname: bool, pathmaker: string -> PathSplit)

  /** `mkdir` met a file leaf named `filename` in the directory at `path`. */
  datatype MkdirError = FileEntryExists(filename: string, path: seq<string>)

  /** The name handed to the pathmaker: prefixed by the archive's base name when configured. */
  function EffectiveName(opts: Options, archiveBase: string, info: Info): string
  {
    if opts.includeArcname then archiveBase + "/" + info.filename else info.filename
  }

  function EntryPath(opts: Options, archiveBase: string, info: Info): PathSplit
  {
    opts.pathmaker(EffectiveName(opts, archiveBase, info))
  }

  /** The tree after loading one entry of the archive at `archivePath` into `d`. */
  function LoadEntry(opts: Options, archivePath: string, archiveBase: string,
                     d: map<string, Node>, info: Info): map<string, Node>
  {
    var sp := EntryPath(opts, archiveBase, info);
    match EnsureDir(d, sp.frags)
    case None => d
    case Some(d1) =>
      if sp.leaf == "" then d1
      else if sp.leaf in Children(Resolve(Dir(d1), sp.frags)) && !opts.overwrite then d1
      else PutAt(d1, sp.frags, sp.leaf, File(archivePath, info.filename, info.fileSize))
  }

  /** The tree after loading `infos` in order. */
  function LoadAll(opts: Options, archivePath: string, archiveBase: string,
                   d: map<string, Node>, infos: seq<Info>): map<string, Node>
    decreases |infos|
  {
    if infos == [] then d
    else LoadEntry(opts, archivePath, archiveBase,
                   LoadAll(opts, archivePath, archiveBase, d, infos[..|infos| - 1]), infos[|infos| - 1])
  }

  class DefaultMapper {
    const includeArcname: bool
    const overwrite: bool
    const pathmaker: string -> PathSplit
    /** The root directory. */
    var mapping: map<string, Node>

    constructor (pathmaker: string -> PathSplit, overwrite: bool, includeArcname: bool)
      ensures this.pathmaker == pathmaker
      ensures this.overwrite == overwrite && this.includeArcname == includeArcname
      ensures mapping == map[]
    {
      this.includeArcname := includeArcname;
      this.overwrite := overwrite;
      this.pathmaker := pathmaker;
      mapping := map[];
    }

    function Opts(): Options
    {
      Options(overwrite, includeArcname, pathmaker)
    }

    /**
     * Creates the directories along `frags` that do not exist yet and returns
     * the directory at `frags`; fails, changing nothing, at a file leaf.
     */
    method Mkdir(frags: seq<string>) returns (r: Result<map<string, Node>, MkdirError>)
      modifies this
      ensures r.Ok? <==> EnsureDir(old(mapping), frags).Some?
      ensures r.Ok? ==> mapping == EnsureDir(old(mapping), frags).value
      ensures r.Ok? ==> Resolve(Dir(mapping), frags) == Some(Dir(r.value))
      ensures r.Ok? ==> r.value.Keys == Children(Resolve(Dir(old(mapping)), frags))
      ensures r.Err? ==> mapping == old(mapping)
      ensures r.Err? ==> var c := |r.error.path|;
        c < |frags| && r.error.path == frags[..c] && r.error.filename == frags[c] &&
        DirAt(mapping, frags[..c]) && FileAt(mapping, frags[..c + 1])
    {
      var current := mapping;
      var c := 0;
      while c < |frags|
        invariant 0 <= c <= |frags|
        invariant Resolve(Dir(mapping), frags[..c]) == Some(Dir(current))
        invariant EnsureDir(mapping, frags) == EnsureDir(old(mapping), frags)
        invariant mapping == old(mapping) || current == map[]
      {
        var frag := frags[c];
        ResolveAppend(Dir(mapping), frags[..c], [frag]);
        assert frags[..c] + [frag] == frags[..c + 1];
        if frag in current {
          var next := current[frag];
          if next.File? {
            EnsureDirFailsIff(mapping, frags);
            return Err(FileEntryExists(frag, frags[..c]));
          }
          current := next.children;
        } else {
          EnsureDirAfterCreate(mapping, frags, c);
          PutAtResolves(mapping, frags[..c], frag, Dir(map[]));
          mapping := PutAt(mapping, frags[..c], frag, Dir(map[]));
          current := map[];
        }
        c := c + 1;
      }
      assert frags[..c] == frags;
      EnsureDirExisting(mapping, frags);
      EnsureDirTarget(old(mapping), frags);
      return Ok(current);
    }

    /** Looks up a '/'-separated path; the empty path is the root. */
    function Traverse(path: string): (r: Option<Node>)
      reads this
      ensures path == "" ==> r == Some(Dir(mapping))
      ensures r.None? <==> exists i :: 0 <= i < |SplitPath(path)| && StuckAt(Dir(mapping), SplitPath(path), i)
    {
      ResolveNoneIff(Dir(mapping), SplitPath(path));
      Resolve(Dir(mapping), SplitPath(path))
    }

    /** The names in the directory at `path`; none for a file or a missing path. */
    function Readdir(path: string): (r: set<string>)
      reads this
      ensures forall k :: k in r <==> Resolve(Dir(mapping), SplitPath(path) + [k]).Some?
      ensures Traverse(path).None? || Traverse(path).value.File? ==> r == {}
    {
      ListingResolves(Dir(mapping), SplitPath(path));
      Children(Traverse(path))
    }

    /** Merges the entries of the archive at `archivePath` (base name `archiveBase`) into the tree. */
    method LoadInfolist(archivePath: string, archiveBase: string, infolist: seq<Info>)
      modifies this
      ensures mapping == LoadAll(Opts(), archivePath, archiveBase, old(mapping), infolist)
    {
      for i := 0 to |infolist|
        invariant mapping == LoadAll(Opts(), archivePath, archiveBase, old(mapping), infolist[..i])
      {
        var info := infolist[i];
        assert infolist[..i + 1][..i] == infolist[..i];
        var split := pathmaker(EffectiveName(Opts(), archiveBase, info));
        var target := Mkdir(split.frags);
        if target.Err? {
          continue;
        }
        if split.leaf == "" {
          continue;
        }
        if split.leaf in target.value && !overwrite {
          continue;
        }
        mapping := PutAt(mapping, split.frags, split.leaf, File(archivePath, info.filename, info.fileSize));
      }
      assert infolist[..|infolist|] == infolist;
    }

    /**
     * Loads an archive whose entry list the zip reader produced (`Some`) or
     * failed to produce (`None`: missing file, bad archive, any other error).
     */
    method LoadArchive(archivePath: string, archiveBase: string, listing: Option<seq<Info>>) returns (ok: bool)
      modifies this
      ensures ok <==> listing.Some?
      ensures mapping == if listing.Some? then LoadAll(Opts(), archivePath, archiveBase, old(mapping), listing.value)
                         else old(mapping)
    {
      if listing.None? {
        return false;
      }
      LoadInfolist(archivePath, archiveBase, listing.value);
      return true;
    }
  }

  // ------------------------------------------------------------ helpers

  lemma ListingResolves(n: Node, p: seq<string>)
    ensures forall k :: k in Children(Resolve(n, p)) <==> Resolve(n, p + [k]).Some?
  {
    forall k ensures k in Children(Resolve(n, p)) <==> Resolve(n, p + [k]).Some? {
      ResolveSnoc(n, p, k);
    }
  }

  /** The directory `mkdir` returns lists what was at `frags` before: nothing if it was missing. */
  lemma {:induction false} EnsureDirTarget(d: map<string, Node>, frags: seq<string>)
    requires EnsureDir(d, frags).Some?
    ensures Children(Resolve(Dir(EnsureDir(d, frags).value), frags)) == Children(Resolve(Dir(d), frags))
    decreases frags
  {
    if frags != [] {
      var f := frags[0];
      var child := if f in d then d[f] else Dir(map[]);
      EnsureDirTarget(child.children, frags[1..]);
    }
  }

  // ------------------------------------------------------------ mkdir

  /** After a successful `mkdir(frags)`, `traverse('/'.join(frags))` finds a directory. */
  lemma MkdirThenTraverse(d: map<string, Node>, frags: seq<string>)
    requires NoSlash(frags) && EnsureDir(d, frags).Some?
    ensures Resolve(Dir(EnsureDir(d, frags).value), SplitPath(Join(frags))).Some?
    ensures Resolve(Dir(EnsureDir(d, frags).value), SplitPath(Join(frags))).value.Dir?
  {
    SplitPathJoin(frags);
    EnsureDirResolves(d, frags);
  }

  // ------------------------------------------------------------ merge policy

  /** An entry whose directories run into a file leaf is skipped: the tree is untouched. */
  lemma LoadEntryBlocked(opts: Options, archivePath: string, archiveBase: string,
                         d: map<string, Node>, info: Info, i: nat)
    requires 0 < i <= |EntryPath(opts, archiveBase, info).frags|
    requires FileAt(d, EntryPath(opts, archiveBase, info).frags[..i])
    ensures LoadEntry(opts, archivePath, archiveBase, d, info) == d
  {
    EnsureDirFailsIff(d, EntryPath(opts, archiveBase, info).frags);
  }

  /**
   * Without `overwrite`, a name already in the target directory keeps its
   * node: loading the entry leaves the tree as it was.
   */
  lemma LoadEntrySkipsExisting(opts: Options, archivePath: string, archiveBase: string,
                               d: map<string, Node>, info: Info)
    requires !opts.overwrite
    requires EntryPath(opts, archiveBase, info).leaf in Children(Resolve(Dir(d), EntryPath(opts, archiveBase, info).frags))
    ensures LoadEntry(opts, archivePath, archiveBase, d, info) == d
  {
    var sp := EntryPath(opts, archiveBase, info);
    EnsureDirExisting(d, sp.frags);
  }

  /**
   * The leaf is written, as `(archive_path, info.filename, info.file_size)`
   * with the un-prefixed entry name, when the directories could be made and
   * either `overwrite` is on or the name is new; with `overwrite` it replaces
   * whatever node had that name, a directory included.
   */
  lemma LoadEntryWritesLeaf(opts: Options, archivePath: string, archiveBase: string,
                            d: map<string, Node>, info: Info)
    requires EnsureDir(d, EntryPath(opts, archiveBase, info).frags).Some?
    requires EntryPath(opts, archiveBase, info).leaf != ""
    requires opts.overwrite || EntryPath(opts, archiveBase, info).leaf !in Children(Resolve(Dir(d), EntryPath(opts, archiveBase, info).frags))
    ensures var sp := EntryPath(opts, archiveBase, info);
      Resolve(Dir(LoadEntry(opts, archivePath, archiveBase, d, info)), sp.frags + [sp.leaf])
      == Some(File(archivePath, info.filename, info.fileSize))
  {
    var sp := EntryPath(opts, archiveBase, info);
    EnsureDirTarget(d, sp.frags);
    EnsureDirResolves(d, sp.frags);
    PutAtResolves(EnsureDir(d, sp.frags).value, sp.frags, sp.leaf, File(archivePath, info.filename, info.fileSize));
  }

  /**
   * Loading an entry changes nothing on any path apart from its own leaf
   * path: paths that resolved lead to the same node, and paths that did not
   * resolve still do not.
   */
  lemma LoadEntryElsewhere(opts: Options, archivePath: string, archiveBase: string,
                           d: map<string, Node>, info: Info, q: seq<string>)
    requires Apart(EntryPath(opts, archiveBase, info).frags + [EntryPath(opts, archiveBase, info).leaf], q)
    ensures Resolve(Dir(LoadEntry(opts, archivePath, archiveBase, d, info)), q) == Resolve(Dir(d), q)
  {
    var sp := EntryPath(opts, archiveBase, info);
    if EnsureDir(d, sp.frags).Some? {
      var d1 := EnsureDir(d, sp.frags).value;
      EnsureDirElsewhere(d, sp.frags, sp.leaf, q);
      PutAtElsewhere(d1, sp.frags, sp.leaf, File(archivePath, info.filename, info.fileSize), q);
    }
  }

  /**
   * A directory entry (no leaf) only creates its directories: nothing is
   * removed or rebound, and every new path is a prefix of its fragments
   * leading to a fresh chain of directories.
   */
  lemma LoadEntryDirectoryMarker(opts: Options, archivePath: string, archiveBase: string,
                                 d: map<string, Node>, info: Info, q: seq<string>)
    requires EntryPath(opts, archiveBase, info).leaf == ""
    ensures Extends(Dir(d), Dir(LoadEntry(opts, archivePath, archiveBase, d, info)))
    ensures EnsureDir(d, EntryPath(opts, archiveBase, info).frags).Some? ==>
      DirAt(LoadEntry(opts, archivePath, archiveBase, d, info), EntryPath(opts, archiveBase, info).frags)
    ensures var r := LoadEntry(opts, archivePath, archiveBase, d, info);
      var fs := EntryPath(opts, archiveBase, info).frags;
      Resolve(Dir(r), q).Some? && Resolve(Dir(d), q).None? ==>
        IsPrefix(q, fs) && Resolve(Dir(r), q) == Some(Chain(fs[|q|..]))
  {
    var fs := EntryPath(opts, archiveBase, info).frags;
    if EnsureDir(d, fs).Some? {
      EnsureDirExtends(d, fs);
      EnsureDirResolves(d, fs);
      var r := EnsureDir(d, fs).value;
      if Resolve(Dir(r), q).Some? && Resolve(Dir(d), q).None? {
        EnsureDirNewPaths(d, fs, q);
      }
    } else {
      ExtendsRefl(Dir(d));
    }
  }

  /** Without `overwrite`, loading an entry only adds to the tree. */
  lemma LoadEntryKeepsOccupants(opts: Options, archivePath: string, archiveBase: string,
                                d: map<string, Node>, info: Info)
    requires !opts.overwrite
    ensures Extends(Dir(d), Dir(LoadEntry(opts, archivePath, archiveBase, d, info)))
  {
    var sp := EntryPath(opts, archiveBase, info);
    if EnsureDir(d, sp.frags).Some? {
      var d1 := EnsureDir(d, sp.frags).value;
      EnsureDirExtends(d, sp.frags);
      if sp.leaf != "" && sp.leaf !in Children(Resolve(Dir(d1), sp.frags)) {
        EnsureDirResolves(d, sp.frags);
        PutAtNewExtends(d1, sp.frags, sp.leaf, File(archivePath, info.filename, info.fileSize));
        ExtendsTrans(Dir(d), Dir(d1), Dir(LoadEntry(opts, archivePath, archiveBase, d, info)));
      }
    } else {
      ExtendsRefl(Dir(d));
    }
  }

  /** Without `overwrite`, a whole entry list only adds to the tree. */
  lemma {:induction false} LoadAllKeepsOccupants(opts: Options, archivePath: string, archiveBase: string,
                                                 d: map<string, Node>, infos: seq<Info>)
    requires !opts.overwrite
    ensures Extends(Dir(d), Dir(LoadAll(opts, archivePath, archiveBase, d, infos)))
    decreases |infos|
  {
    if infos == [] {
      ExtendsRefl(Dir(d));
    } else {
      var before := LoadAll(opts, archivePath, archiveBase, d, infos[..|infos| - 1]);
      LoadAllKeepsOccupants(opts, archivePath, archiveBase, d, infos[..|infos| - 1]);
      LoadEntryKeepsOccupants(opts, archivePath, archiveBase, before, infos[|infos| - 1]);
      ExtendsTrans(Dir(d), Dir(before), Dir(LoadAll(opts, archivePath, archiveBase, d, infos)));
    }
  }

  /** Without `overwrite` the first writer of a leaf keeps it, whatever is loaded later. */
  lemma FirstWriterWins(opts: Options, archivePath: string, archiveBase: string,
                        d: map<string, Node>, infos: seq<Info>, q: seq<string>)
    requires !opts.overwrite && FileAt(d, q)
    ensures Resolve(Dir(LoadAll(opts, archivePath, archiveBase, d, infos)), q) == Resolve(Dir(d), q)
  {
    LoadAllKeepsOccupants(opts, archivePath, archiveBase, d, infos);
    ExtendsResolve(Dir(d), Dir(LoadAll(opts, archivePath, archiveBase, d, infos)), q);
  }

  /**
   * A file leaf at `p` blocks every entry whose directories pass through
   * `p`: loading a list made only of such entries leaves the tree as it was.
   */
  lemma {:induction false} LoadAllBlocked(opts: Options, archivePath: string, archiveBase: string,
                                          d: map<string, Node>, infos: seq<Info>, p: seq<string>)
    requires p != [] && FileAt(d, p)
    requires forall j :: 0 <= j < |infos| ==> IsPrefix(p, EntryPath(opts, archiveBase, infos[j]).frags)
    ensures LoadAll(opts, archivePath, archiveBase, d, infos) == d
    decreases |infos|
  {
    if infos != [] {
      var n := |infos| - 1;
      forall j | 0 <= j < n ensures IsPrefix(p, EntryPath(opts, archiveBase, infos[..n][j]).frags) {
        assert infos[..n][j] == infos[j];
      }
      LoadAllBlocked(opts, archivePath, archiveBase, d, infos[..n], p);
      assert IsPrefix(p, EntryPath(opts, archiveBase, infos[n]).frags);
      LoadEntryBlocked(opts, archivePath, archiveBase, d, infos[n], |p|);
    }
  }

  // ------------------------------------------------------------ lists in pieces

  /** Loading `xs + ys` is loading `xs`, then `ys` into the result. */
  lemma {:induction false} LoadAllAppend(opts: Options, archivePath: string, archiveBase: string,
                                         d: map<string, Node>, xs: seq<Info>, ys: seq<Info>)
    ensures LoadAll(opts, archivePath, archiveBase, d, xs + ys)
         == LoadAll(opts, archivePath, archiveBase, LoadAll(opts, archivePath, archiveBase, d, xs), ys)
    decreases |ys|
  {
    if ys == [] {
      assert xs + ys == xs;
    } else {
      var n := |ys| - 1;
      LoadAllAppend(opts, archivePath, archiveBase, d, xs, ys[..n]);
      assert (xs + ys)[..|xs + ys| - 1] == xs + ys[..n];
      assert (xs + ys)[|xs + ys| - 1] == ys[n];
    }
  }

  /**
   * Without `overwrite`, a file leaf written by the first part of a list,
   * or present before it, keeps its node through the rest of the list.
   */
  lemma FirstWriterWinsWithin(opts: Options, archivePath: string, archiveBase: string,
                              d: map<string, Node>, xs: seq<Info>, ys: seq<Info>, q: seq<string>)
    requires !opts.overwrite && FileAt(LoadAll(opts, archivePath, archiveBase, d, xs), q)
    ensures Resolve(Dir(LoadAll(opts, archivePath, archiveBase, d, xs + ys)), q)
         == Resolve(Dir(LoadAll(opts, archivePath, archiveBase, d, xs)), q)
  {
    LoadAllAppend(opts, archivePath, archiveBase, d, xs, ys);
    FirstWriterWins(opts, archivePath, archiveBase, LoadAll(opts, archivePath, archiveBase, d, xs), ys, q);
  }

  /**
   * An entry under a file leaf that the earlier entries of the same list
   * left at `p` is a no-op at its position; the entries after it are then
   * loaded into the tree as it stood before that entry.
   */
  lemma BlockedWithin(opts: Options, archivePath: string, archiveBase: string,
                      d: map<string, Node>, xs: seq<Info>, info: Info, ys: seq<Info>, p: seq<string>)
    requires p != [] && FileAt(LoadAll(opts, archivePath, archiveBase, d, xs), p)
    requires IsPrefix(p, EntryPath(opts, archiveBase, info).frags)
    ensures LoadAll(opts, archivePath, archiveBase, d, xs + [info] + ys)
         == LoadAll(opts, archivePath, archiveBase, d, xs + ys)
  {
    var before := LoadAll(opts, archivePath, archiveBase, d, xs);
    LoadAllAppend(opts, archivePath, archiveBase, d, xs + [info], ys);
    LoadAllAppend(opts, archivePath, archiveBase, d, xs, ys);
    assert (xs + [info])[..|xs + [info]| - 1] == xs;
    LoadEntryBlocked(opts, archivePath, archiveBase, before, info, |p|);
  }
}
