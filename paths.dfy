/** The three path functions of Go's path/filepath the loader calls, for
    '/'-separated paths: Base (config.go:72), Clean (config.go:117) and
    Join (config.go:127). */
module Paths {
  import opened ByteStrings

  /** The path with every trailing '/' taken off. */
  function TrimTrailingSlashes(path: seq<byte>): (r: seq<byte>)
    ensures r == [] || r[|r| - 1] != Slash
    ensures r <= path
  {
    if path != [] && path[|path| - 1] == Slash then TrimTrailingSlashes(path[..|path| - 1])
    else path
  }

  /** What follows the last '/' of the path (all of it when it has none). */
  function AfterLastSlash(path: seq<byte>): (r: seq<byte>)
    ensures Slash !in r
  {
    if path == [] || path[|path| - 1] == Slash then []
    else AfterLastSlash(path[..|path| - 1]) + [path[|path| - 1]]
  }

  /** filepath.Base: the last element of the path, trailing slashes
      ignored; "." for the empty path and "/" for a path of slashes only.
      Never empty, so `Base(p)[0]` always exists. */
  function Base(path: seq<byte>): (r: seq<byte>)
    ensures |r| > 0
  {
    if path == [] then [Dot]
    else
      var name := AfterLastSlash(TrimTrailingSlashes(path));
      if name == [] then [Slash] else name
  }

  /** The path cut at every '/' (one element more than it has slashes). */
  function Split(path: seq<byte>): (r: seq<seq<byte>>)
    ensures |r| > 0
    decreases |path|
  {
    var n := IndexOf(path, Slash);
    if n == |path| then [path] else [path[..n]] + Split(path[n + 1..])
  }

  /** One element of the lexical walk Clean does: "" and "." are dropped,
      ".." removes the element before it when there is one to remove, is
      dropped at the root, and is kept otherwise. */
  function Step(kept: seq<seq<byte>>, element: seq<byte>, rooted: bool): seq<seq<byte>>
  {
    if element == [] || element == [Dot] then kept
    else if element == [Dot, Dot] then
      if kept != [] && kept[|kept| - 1] != [Dot, Dot] then kept[..|kept| - 1]
      else if rooted then kept
      else kept + [element]
    else kept + [element]
  }

  /** The elements Clean keeps, walking the elements from the left. */
  function Resolve(elements: seq<seq<byte>>, rooted: bool): seq<seq<byte>>
  {
    if elements == [] then []
    else Step(Resolve(elements[..|elements| - 1], rooted), elements[|elements| - 1], rooted)
  }

  /** filepath.Clean: the shortest equivalent path by lexical processing;
      "." for an empty result. Never empty. */
  function Clean(path: seq<byte>): (r: seq<byte>)
    ensures |r| > 0
  {
    if path == [] then [Dot]
    else
      var rooted := path[0] == Slash;
      var body := Join(Resolve(Split(path), rooted), [Slash]);
      if rooted then [Slash] + body
      else if body == [] then [Dot]
      else body
  }

  /** filepath.Join of two elements: the non-empty ones joined by '/' and
      cleaned; "" when both are empty. */
  function JoinPath(dir: seq<byte>, name: seq<byte>): (r: seq<byte>)
    ensures r == [] <==> dir == [] && name == []
  {
    if dir != [] then Clean(dir + [Slash] + name)
    else if name != [] then Clean(name)
    else []
  }

  /** A name as a directory listing gives it: not empty, no '/', and not
      "." or "..". */
  predicate PlainName(name: seq<byte>)
  {
    name != [] && Slash !in name && name != [Dot] && name != [Dot, Dot]
  }

  /** Cutting after a final plain element adds that element. */
  lemma {:induction false} SplitAppend(dir: seq<byte>, name: seq<byte>)
    requires Slash !in name
    ensures Split(dir + [Slash] + name) == Split(dir) + [name]
    decreases |dir|
  {
    var n := IndexOf(dir, Slash);
    if n == |dir| {
      SplitLastSlash(dir, name);
    } else {
      var first, rest := dir[..n], dir[n + 1..];
      assert Split(dir) == [first] + Split(rest);
      assert Split(dir + [Slash] + name) == [first] + Split(rest + [Slash] + name) by {
        SplitFirstSlash(dir, name, n);
      }
      SplitAppend(rest, name);
    }
  }

  /** With no '/' in dir, the added '/' is the only cut. */
  lemma SplitLastSlash(dir: seq<byte>, name: seq<byte>)
    requires Slash !in name
    requires IndexOf(dir, Slash) == |dir|
    ensures Split(dir + [Slash] + name) == [dir, name]
  {
    var path := dir + [Slash] + name;
    IndexOfIsFirst(dir, Slash);
    IndexOfFirst(path, Slash, |dir|);
    assert path[..|dir|] == dir;
    assert path[|dir| + 1..] == name;
    IndexOfAbsent(name, Slash);
  }

  /** The first cut falls where dir has its first '/'. */
  lemma SplitFirstSlash(dir: seq<byte>, name: seq<byte>, n: nat)
    requires n == IndexOf(dir, Slash) < |dir|
    ensures Split(dir + [Slash] + name)
            == [dir[..n]] + Split(dir[n + 1..] + [Slash] + name)
  {
    var tail := [Slash] + name;
    var path := dir + tail;
    assert dir + [Slash] + name == path;
    assert dir[n + 1..] + [Slash] + name == dir[n + 1..] + tail;
    IndexOfPrefix(dir, tail, Slash);
    SliceOfAppend(dir, tail, n);
  }

  /** Cutting a concatenation inside its first part. */
  lemma SliceOfAppend(a: seq<byte>, b: seq<byte>, n: nat)
    requires n < |a|
    ensures (a + b)[..n] == a[..n]
    ensures (a + b)[n + 1..] == a[n + 1..] + b
  {
  }

  /** A '/' or nothing before a plain name leaves the name as the base. */
  lemma {:induction false} BaseAfterSlash(prefix: seq<byte>, name: seq<byte>)
    requires prefix == [] || prefix[|prefix| - 1] == Slash
    requires name != [] && Slash !in name
    ensures Base(prefix + name) == name
  {
    var path := prefix + name;
    assert TrimTrailingSlashes(path) == path by {
      assert path[|path| - 1] == name[|name| - 1];
    }
    AfterLastSlashOfName(prefix, name);
  }

  lemma {:induction false} AfterLastSlashOfName(prefix: seq<byte>, name: seq<byte>)
    requires prefix == [] || prefix[|prefix| - 1] == Slash
    requires Slash !in name
    ensures AfterLastSlash(prefix + name) == name
    decreases |name|
  {
    if name == [] {
      assert prefix + name == prefix;
    } else {
      var path := prefix + name;
      var init := name[..|name| - 1];
      assert path[..|path| - 1] == prefix + init;
      assert path[|path| - 1] == name[|name| - 1];
      AfterLastSlashOfName(prefix, init);
    }
  }

  /** Joining a plain name onto any non-empty directory gives a path whose
      base is that name. */
  lemma BaseOfJoin(dir: seq<byte>, name: seq<byte>)
    requires dir != []
    requires PlainName(name)
    ensures Base(JoinPath(dir, name)) == name
  {
    var path := dir + [Slash] + name;
    var rooted := path[0] == Slash;
    SplitAppend(dir, name);
    var kept := Resolve(Split(dir), rooted);
    var all := Split(dir) + [name];
    assert all[..|all| - 1] == Split(dir);
    assert Resolve(all, rooted) == kept + [name];
    JoinSnoc(kept, name, [Slash]);
    var body := Join(kept + [name], [Slash]);
    var prefix := if kept == [] then [] else Join(kept, [Slash]) + [Slash];
    assert body == prefix + name;
    if rooted {
      assert Clean(path) == ([Slash] + prefix) + name;
      BaseAfterSlash([Slash] + prefix, name);
    } else {
      assert Clean(path) == prefix + name;
      BaseAfterSlash(prefix, name);
    }
  }
}
