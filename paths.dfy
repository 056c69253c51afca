/**
 * Slash-separated paths as the mapper reads them: `path.split('/')` and
 * `'/'.join(fragments)`, with the empty path standing for the root.
 */
module Paths {

  /** Python's `s.split('/')`: always at least one piece, none holding a '/'. */
  function Split(s: string): (r: seq<string>)
    ensures |r| >= 1
    ensures forall i :: 0 <= i < |r| ==> '/' !in r[i]
  {
    if s == [] then [""]
    else
      var rest := Split(s[1..]);
      if s[0] == '/' then [""] + rest
      else [[s[0]] + rest[0]] + rest[1..]
  }

  /** Python's `'/'.join(frags)`. */
  function Join(frags: seq<string>): string
  {
    if |frags| == 0 then ""
    else if |frags| == 1 then frags[0]
    else frags[0] + "/" + Join(frags[1..])
  }

  /** `path and path.split('/') or []`: the empty path has no fragments. */
  function SplitPath(path: string): (r: seq<string>)
    ensures path == "" <==> r == []
  {
    if path == "" then [] else Split(path)
  }

  predicate NoSlash(frags: seq<string>)
  {
    forall i :: 0 <= i < |frags| ==> '/' !in frags[i]
  }

  /** Joining the pieces of a split gives back the string. */
  lemma {:induction false} JoinSplit(s: string)
    ensures Join(Split(s)) == s
  {
    if s != [] {
      var rest := Split(s[1..]);
      JoinSplit(s[1..]);
      if s[0] == '/' {
        assert Split(s) == [""] + rest;
      } else if |rest| == 1 {
        assert Split(s) == [[s[0]] + rest[0]];
      } else {
        assert Split(s) == [[s[0]] + rest[0]] + rest[1..];
        assert ([[s[0]] + rest[0]] + rest[1..])[1..] == rest[1..];
        assert Join(rest) == rest[0] + "/" + Join(rest[1..]);
      }
    }
  }

  lemma {:induction false} SplitWithoutSlash(a: string)
    requires '/' !in a
    ensures Split(a) == [a]
  {
    if a != [] {
      SplitWithoutSlash(a[1..]);
      assert [a[0]] + a[1..] == a;
    }
  }

  lemma {:induction false} SplitAtFirstSlash(a: string, rest: string)
    requires '/' !in a
    ensures Split(a + "/" + rest) == [a] + Split(rest)
  {
    if a == [] {
      assert a + "/" + rest == "/" + rest;
      assert ("/" + rest)[1..] == rest;
    } else {
      assert (a + "/" + rest)[1..] == a[1..] + "/" + rest;
      SplitAtFirstSlash(a[1..], rest);
      assert [a[0]] + a[1..] == a;
    }
  }

  /** Splitting a join gives back fragments free of '/'. */
  lemma {:induction false} SplitJoin(frags: seq<string>)
    requires |frags| >= 1 && NoSlash(frags)
    ensures Split(Join(frags)) == frags
  {
    if |frags| == 1 {
      SplitWithoutSlash(frags[0]);
    } else {
      SplitAtFirstSlash(frags[0], Join(frags[1..]));
      SplitJoin(frags[1..]);
      assert [frags[0]] + frags[1..] == frags;
    }
  }

  /**
   * The fragment list a traversal of `'/'.join(frags)` walks: the fragments
   * themselves, except that the single empty fragment joins to the root path.
   */
  lemma SplitPathJoin(frags: seq<string>)
    requires NoSlash(frags)
    ensures SplitPath(Join(frags)) == if frags == [""] then [] else frags
  {
    if |frags| == 1 {
      SplitWithoutSlash(frags[0]);
    } else if |frags| > 1 {
      SplitJoin(frags);
      assert |Join(frags)| > 0 by {
        assert Join(frags) == frags[0] + "/" + Join(frags[1..]);
      }
    }
  }
}
