/**
 * The merged namespace tree: a directory maps names to nodes, and a file leaf
 * records which archive entry it stands for.  Reading (`Resolve`), writing
 * one name under a directory (`PutAt`) and creating a chain of directories
 * (`EnsureDir`) are the operations the mapper is built from.
 */
module Tree {
  import opened Wrappers

  /** A dict value (directory) or a `(archive_path, entry_name, size)` tuple. */
  datatype Node = Dir(children: map<string, Node>) | File(arc: string, name: string, size: nat)

  /** Follows `frags` from `n`; absent as soon as a name is missing or a file is met before the end. */
  function Resolve(n: Node, frags: seq<string>): Option<Node>
    decreases frags
  {
    if frags == [] then Some(n)
    else if n.Dir? && frags[0] in n.children then Resolve(n.children[frags[0]], frags[1..])
    else None
  }

  /** The names listed by a looked-up node: a directory's keys, nothing otherwise. */
  function Children(o: Option<Node>): set<string>
  {
    if o.Some? && o.value.Dir? then o.value.children.Keys else {}
  }

  ghost predicate FileAt(d: map<string, Node>, p: seq<string>)
  {
    Resolve(Dir(d), p).Some? && Resolve(Dir(d), p).value.File?
  }

  ghost predicate DirAt(d: map<string, Node>, p: seq<string>)
  {
    Resolve(Dir(d), p).Some? && Resolve(Dir(d), p).value.Dir?
  }

  /** Walking stops at position `i`: the node reached is a file, or a directory without `frags[i]`. */
  ghost predicate StuckAt(n: Node, frags: seq<string>, i: nat)
    requires i < |frags|
  {
    Resolve(n, frags[..i]).Some? && frags[i] !in Children(Resolve(n, frags[..i]))
  }

  ghost predicate IsPrefix(p: seq<string>, q: seq<string>)
  {
    |p| <= |q| && q[..|p|] == p
  }

  /** Neither path is a prefix of the other. */
  ghost predicate Apart(p: seq<string>, q: seq<string>)
    decreases p
  {
    |p| > 0 && |q| > 0 && (p[0] != q[0] || Apart(p[1..], q[1..]))
  }

  /**
   * `b` grows `a`: every file of `a` is still there, unchanged, and every
   * directory of `a` is still a directory holding at least its old names.
   */
  ghost predicate Extends(a: Node, b: Node)
  {
    match a
    case File(_, _, _) => b == a
    case Dir(ca) => b.Dir? && forall k :: k in ca ==> k in b.children && Extends(ca[k], b.children[k])
  }

  /** A fresh directory holding a fresh directory for each of `rest`, nested. */
  function Chain(rest: seq<string>): (r: Node)
    ensures r.Dir?
    decreases rest
  {
    if rest == [] then Dir(map[]) else Dir(map[rest[0] := Chain(rest[1..])])
  }

  /**
   * `target[k] = v` where `target` is the directory at `p`; the tree is
   * unchanged when `p` does not lead to a directory.
   */
  function PutAt(d: map<string, Node>, p: seq<string>, k: string, v: Node): map<string, Node>
    decreases p
  {
    if p == [] then d[k := v]
    else if p[0] in d && d[p[0]].Dir? then d[p[0] := Dir(PutAt(d[p[0]].children, p[1..], k, v))]
    else d
  }

  /**
   * The tree after `mkdir(frags)`: each missing fragment becomes an empty
   * directory; absent when a fragment along the way is a file.
   */
  function EnsureDir(d: map<string, Node>, frags: seq<string>): Option<map<string, Node>>
    decreases frags
  {
    if frags == [] then Some(d)
    else
      var child := if frags[0] in d then d[frags[0]] else Dir(map[]);
      if child.File? then None
      else match EnsureDir(child.children, frags[1..])
        case None => None
        case Some(c) => Some(d[frags[0] := Dir(c)])
  }

  // ---------------------------------------------------------------- Resolve

  lemma {:induction false} ResolveAppend(n: Node, p: seq<string>, q: seq<string>)
    ensures Resolve(n, p + q) == if Resolve(n, p).Some? then Resolve(Resolve(n, p).value, q) else None
    decreases p
  {
    if p == [] {
      assert p + q == q;
    } else {
      assert (p + q)[0] == p[0] && (p + q)[1..] == p[1..] + q;
      if n.Dir? && p[0] in n.children {
        ResolveAppend(n.children[p[0]], p[1..], q);
      }
    }
  }

  /** One step further: `p + [k]` resolves exactly when `k` is listed at `p`. */
  lemma ResolveSnoc(n: Node, p: seq<string>, k: string)
    ensures Resolve(n, p + [k]).Some? <==> k in Children(Resolve(n, p))
    ensures k in Children(Resolve(n, p)) ==> Resolve(n, p + [k]) == Some(Resolve(n, p).value.children[k])
  {
    ResolveAppend(n, p, [k]);
  }

  lemma {:induction false} ResolvePrefixStep(n: Node, frags: seq<string>, i: nat)
    requires 0 < i <= |frags| && n.Dir? && frags[0] in n.children
    ensures Resolve(n, frags[..i]) == Resolve(n.children[frags[0]], frags[1..][..i - 1])
  {
    assert frags[..i][0] == frags[0] && frags[..i][1..] == frags[1..][..i - 1];
  }

  /** Traversal fails exactly when the walk gets stuck at some fragment. */
  lemma {:induction false} ResolveNoneIff(n: Node, frags: seq<string>)
    ensures Resolve(n, frags).None? <==> exists i :: 0 <= i < |frags| && StuckAt(n, frags, i)
    decreases frags
  {
    if frags != [] {
      assert frags[..0] == [];
      if n.Dir? && frags[0] in n.children {
        var c := n.children[frags[0]];
        ResolveNoneIff(c, frags[1..]);
        assert !StuckAt(n, frags, 0);
        forall i | 0 < i < |frags|
          ensures StuckAt(n, frags, i) <==> StuckAt(c, frags[1..], i - 1)
        {
          ResolvePrefixStep(n, frags, i);
        }
        forall j | 0 <= j < |frags| - 1 && StuckAt(c, frags[1..], j)
          ensures exists i :: 0 <= i < |frags| && StuckAt(n, frags, i)
        {
          assert StuckAt(n, frags, j + 1);
        }
        forall i | 0 <= i < |frags| && StuckAt(n, frags, i)
          ensures exists j :: 0 <= j < |frags| - 1 && StuckAt(c, frags[1..], j)
        {
          assert StuckAt(c, frags[1..], i - 1);
        }
      } else {
        assert StuckAt(n, frags, 0);
      }
    }
  }

  /** A growing tree keeps every path that resolved, and what it resolved to only grows. */
  lemma {:induction false} ExtendsResolve(a: Node, b: Node, q: seq<string>)
    requires Extends(a, b) && Resolve(a, q).Some?
    ensures Resolve(b, q).Some? && Extends(Resolve(a, q).value, Resolve(b, q).value)
    decreases q
  {
    if q != [] {
      ExtendsResolve(a.children[q[0]], b.children[q[0]], q[1..]);
    }
  }

  lemma {:induction false} ExtendsRefl(a: Node)
    ensures Extends(a, a)
  {
    match a
    case File(_, _, _) =>
    case Dir(ca) =>
      forall k | k in ca ensures Extends(ca[k], ca[k]) {
        ExtendsRefl(ca[k]);
      }
  }

  lemma {:induction false} ExtendsTrans(a: Node, b: Node, c: Node)
    requires Extends(a, b) && Extends(b, c)
    ensures Extends(a, c)
  {
    match a
    case File(_, _, _) =>
    case Dir(ca) =>
      forall k | k in ca ensures k in c.children && Extends(ca[k], c.children[k]) {
        ExtendsTrans(ca[k], b.children[k], c.children[k]);
      }
  }

  lemma DirAtStep(d: map<string, Node>, p: seq<string>)
    requires DirAt(d, p) && p != []
    ensures p[0] in d && d[p[0]].Dir? && DirAt(d[p[0]].children, p[1..])
  {
    assert p[0] in d;
    var n := d[p[0]];
    assert Resolve(Dir(d), p) == Resolve(n, p[1..]);
    if p[1..] == [] {
      assert Resolve(n, p[1..]) == Some(n);
    } else {
      assert n.Dir?;
    }
    assert n == Dir(n.children);
  }

  // ----------------------------------------------------------------- PutAt

  /** After the write, `p + [k]` leads to the written node. */
  lemma {:induction false} PutAtResolves(d: map<string, Node>, p: seq<string>, k: string, v: Node)
    requires DirAt(d, p)
    ensures Resolve(Dir(PutAt(d, p, k, v)), p + [k]) == Some(v)
    decreases p
  {
    if p == [] {
      assert [] + [k] == [k];
    } else {
      assert (p + [k])[0] == p[0] && (p + [k])[1..] == p[1..] + [k];
      DirAtStep(d, p);
      PutAtResolves(d[p[0]].children, p[1..], k, v);
    }
  }

  /** Paths apart from the written one resolve as before. */
  lemma {:induction false} PutAtElsewhere(d: map<string, Node>, p: seq<string>, k: string, v: Node, q: seq<string>)
    requires Apart(p + [k], q)
    ensures Resolve(Dir(PutAt(d, p, k, v)), q) == Resolve(Dir(d), q)
    decreases p
  {
    if p == [] {
      assert (p + [k])[0] == k && (p + [k])[1..] == [];
    } else {
      assert (p + [k])[0] == p[0] && (p + [k])[1..] == p[1..] + [k];
      if p[0] in d && d[p[0]].Dir? && q[0] == p[0] {
        PutAtElsewhere(d[p[0]].children, p[1..], k, v, q[1..]);
      }
    }
  }

  /** Writing a name that the target directory lacks only adds to the tree. */
  lemma {:induction false} PutAtNewExtends(d: map<string, Node>, p: seq<string>, k: string, v: Node)
    requires DirAt(d, p) && k !in Resolve(Dir(d), p).value.children
    ensures Extends(Dir(d), Dir(PutAt(d, p, k, v)))
    decreases p
  {
    var r := PutAt(d, p, k, v);
    forall x | x in d ensures x in r && Extends(d[x], r[x]) {
      if p != [] && x == p[0] {
        PutAtNewExtends(d[x].children, p[1..], k, v);
      } else {
        ExtendsRefl(d[x]);
      }
    }
  }

  // ------------------------------------------------------------- EnsureDir

  lemma {:induction false} EnsureDirEmpty(rest: seq<string>)
    ensures EnsureDir(map[], rest) == Some(Chain(rest).children)
    decreases rest
  {
    if rest != [] {
      EnsureDirEmpty(rest[1..]);
      assert map[][rest[0] := Dir(Chain(rest[1..]).children)] == Chain(rest).children;
    }
  }

  /** On a path that already leads to a directory, `mkdir` changes nothing. */
  lemma {:induction false} EnsureDirExisting(d: map<string, Node>, frags: seq<string>)
    requires DirAt(d, frags)
    ensures EnsureDir(d, frags) == Some(d)
    decreases frags
  {
    if frags != [] {
      DirAtStep(d, frags);
      var c := d[frags[0]].children;
      EnsureDirExisting(c, frags[1..]);
      assert d[frags[0] := Dir(c)] == d;
    }
  }

  /** A successful `mkdir` leaves a directory at `frags`. */
  lemma {:induction false} EnsureDirResolves(d: map<string, Node>, frags: seq<string>)
    requires EnsureDir(d, frags).Some?
    ensures DirAt(EnsureDir(d, frags).value, frags)
    decreases frags
  {
    if frags != [] {
      var child := if frags[0] in d then d[frags[0]] else Dir(map[]);
      EnsureDirResolves(child.children, frags[1..]);
    }
  }

  /** `mkdir` is idempotent: a second call succeeds and leaves the tree as the first left it. */
  lemma EnsureDirIdempotent(d: map<string, Node>, frags: seq<string>)
    requires EnsureDir(d, frags).Some?
    ensures EnsureDir(EnsureDir(d, frags).value, frags) == EnsureDir(d, frags)
  {
    EnsureDirResolves(d, frags);
    EnsureDirExisting(EnsureDir(d, frags).value, frags);
  }

  /** `mkdir` fails exactly when some non-empty prefix of `frags` is a file leaf. */
  lemma {:induction false} EnsureDirFailsIff(d: map<string, Node>, frags: seq<string>)
    ensures EnsureDir(d, frags).None? <==> exists i :: 0 < i <= |frags| && FileAt(d, frags[..i])
    decreases frags
  {
    if frags != [] {
      var f := frags[0];
      forall i | 0 < i <= |frags|
        ensures f in d ==> Resolve(Dir(d), frags[..i]) == Resolve(d[f], frags[1..][..i - 1])
        ensures f !in d ==> Resolve(Dir(d), frags[..i]).None?
      {
        assert frags[..i][0] == f && frags[..i][1..] == frags[1..][..i - 1];
      }
      if f !in d {
        EnsureDirEmpty(frags[1..]);
      } else if d[f].File? {
        assert frags[..1][1..][..0] == [];
        assert FileAt(d, frags[..1]);
      } else {
        var c := d[f].children;
        EnsureDirFailsIff(c, frags[1..]);
        assert !FileAt(d, frags[..1]) by {
          assert frags[1..][..0] == [];
        }
        forall j | 0 < j <= |frags| - 1 && FileAt(c, frags[1..][..j])
          ensures exists i :: 0 < i <= |frags| && FileAt(d, frags[..i])
        {
          assert FileAt(d, frags[..j + 1]);
        }
        forall i | 0 < i <= |frags| && FileAt(d, frags[..i])
          ensures exists j :: 0 < j <= |frags| - 1 && FileAt(c, frags[1..][..j])
        {
          assert FileAt(c, frags[1..][..i - 1]);
        }
      }
    }
  }

  /** `mkdir` only adds: no name anywhere is removed or rebound. */
  lemma {:induction false} EnsureDirExtends(d: map<string, Node>, frags: seq<string>)
    requires EnsureDir(d, frags).Some?
    ensures Extends(Dir(d), Dir(EnsureDir(d, frags).value))
    decreases frags
  {
    var r := EnsureDir(d, frags).value;
    forall x | x in d ensures x in r && Extends(d[x], r[x]) {
      if frags != [] && x == frags[0] {
        EnsureDirExtends(d[x].children, frags[1..]);
      } else {
        ExtendsRefl(d[x]);
      }
    }
  }

  /**
   * `mkdir(frags)` leaves every path apart from `frags + [leaf]` exactly as
   * it was: it touches only the directories along `frags`.
   */
  lemma {:induction false} EnsureDirElsewhere(d: map<string, Node>, frags: seq<string>, leaf: string, q: seq<string>)
    requires EnsureDir(d, frags).Some? && Apart(frags + [leaf], q)
    ensures Resolve(Dir(EnsureDir(d, frags).value), q) == Resolve(Dir(d), q)
    decreases frags
  {
    if frags != [] {
      var f := frags[0];
      assert (frags + [leaf])[0] == f && (frags + [leaf])[1..] == frags[1..] + [leaf];
      var child := if f in d then d[f] else Dir(map[]);
      var c := EnsureDir(child.children, frags[1..]).value;
      assert EnsureDir(d, frags).value == d[f := Dir(c)];
      if q[0] == f {
        EnsureDirElsewhere(child.children, frags[1..], leaf, q[1..]);
      }
    }
  }

  /**
   * Every path `mkdir` adds is a prefix of `frags`, and what it leads to is
   * the chain of fresh, otherwise empty directories for the rest of `frags`.
   */
  lemma {:induction false} EnsureDirNewPaths(d: map<string, Node>, frags: seq<string>, q: seq<string>)
    requires EnsureDir(d, frags).Some?
    requires Resolve(Dir(EnsureDir(d, frags).value), q).Some? && Resolve(Dir(d), q).None?
    ensures IsPrefix(q, frags)
    ensures Resolve(Dir(EnsureDir(d, frags).value), q) == Some(Chain(frags[|q|..]))
    decreases frags
  {
    var r := EnsureDir(d, frags).value;
    var f := frags[0];
    assert q[0] == f;
    var child := if f in d then d[f] else Dir(map[]);
    var c := EnsureDir(child.children, frags[1..]).value;
    assert r == d[f := Dir(c)];
    if f in d {
      EnsureDirNewPaths(child.children, frags[1..], q[1..]);
    } else {
      EnsureDirEmpty(frags[1..]);
      if q[1..] != [] {
        EnsureDirNewPaths(map[], frags[1..], q[1..]);
      }
    }
    assert frags[1..][|q| - 1..] == frags[|q|..];
    assert q == [f] + q[1..];
  }

  /**
   * Inserting the empty directory that `mkdir` would insert for fragment
   * `i` does not change what `mkdir` produces for the whole of `frags`.
   */
  lemma {:induction false} EnsureDirAfterCreate(d: map<string, Node>, frags: seq<string>, i: nat)
    requires i < |frags| && DirAt(d, frags[..i])
    requires frags[i] !in Resolve(Dir(d), frags[..i]).value.children
    ensures EnsureDir(PutAt(d, frags[..i], frags[i], Dir(map[])), frags) == EnsureDir(d, frags)
    decreases i
  {
    var f := frags[0];
    if i == 0 {
      assert frags[..0] == [];
      assert f !in d;
      var d' := d[f := Dir(map[])];
      var e := EnsureDir(map[], frags[1..]);
      if e.Some? {
        assert d'[f := Dir(e.value)] == d[f := Dir(e.value)];
      }
    } else {
      assert frags[..i][0] == f && frags[..i][1..] == frags[1..][..i - 1];
      DirAtStep(d, frags[..i]);
      var c := d[f].children;
      assert frags[i] == frags[1..][i - 1];
      EnsureDirAfterCreate(c, frags[1..], i - 1);
      var c' := PutAt(c, frags[1..][..i - 1], frags[i], Dir(map[]));
      var d' := d[f := Dir(c')];
      assert PutAt(d, frags[..i], frags[i], Dir(map[])) == d';
      var e := EnsureDir(c, frags[1..]);
      assert EnsureDir(c', frags[1..]) == e;
      if e.Some? {
        assert d'[f := Dir(e.value)] == d[f := Dir(e.value)];
      }
    }
  }
}
