/** The comment stripper of `format`: the regular expression `#.*`
    (config.go:16) replaced everywhere by nothing (config.go:32). In Go's
    regular expressions `.` matches every byte but a newline, so each match
    runs from a `#` up to, and not including, the next newline or the end
    of the input. */
module Comments {
  import opened ByteStrings

  /** The input with every `#` and the rest of its line removed. A match
      ends before the newline, so the search resumes at that newline. */
  function Strip(s: seq<byte>): (r: seq<byte>)
    ensures Hash !in r
    ensures |r| <= |s|
    decreases |s|
  {
    if s == [] then []
    else if s[0] == Hash then Strip(s[IndexOf(s, Newline)..])
    else [s[0]] + Strip(s[1..])
  }

  /** The bytes of one line that come before its first `#`. */
  function BeforeComment(line: seq<byte>): (r: seq<byte>)
    ensures r == line[..IndexOf(line, Hash)]
  {
    if line == [] || line[0] == Hash then []
    else [line[0]] + BeforeComment(line[1..])
  }

  /** Comment removal stated line by line: the input is cut at its
      newlines, each line keeps what precedes its first `#`, and the
      newlines between the lines stay. */
  function StripByLine(s: seq<byte>): seq<byte>
    decreases |s|
  {
    var n := IndexOf(s, Newline);
    if n == |s| then BeforeComment(s)
    else BeforeComment(s[..n]) + [Newline] + StripByLine(s[n + 1..])
  }

  /** A line followed by a newline, or by nothing, strips to what precedes
      its first `#`, followed by the stripped rest. */
  lemma {:induction false} StripLine(line: seq<byte>, rest: seq<byte>)
    requires forall k :: 0 <= k < |line| ==> line[k] != Newline
    requires rest == [] || rest[0] == Newline
    ensures Strip(line + rest) == BeforeComment(line) + Strip(rest)
    decreases |line|
  {
    var s := line + rest;
    if line == [] {
      assert s == rest;
    } else if line[0] == Hash {
      StripCommentLine(line, rest);
    } else {
      assert s[1..] == line[1..] + rest;
      StripLine(line[1..], rest);
    }
  }

  /** A line that opens with `#` strips to nothing. */
  lemma StripCommentLine(line: seq<byte>, rest: seq<byte>)
    requires forall k :: 0 <= k < |line| ==> line[k] != Newline
    requires rest == [] || rest[0] == Newline
    requires line != [] && line[0] == Hash
    ensures Strip(line + rest) == Strip(rest)
  {
    var s := line + rest;
    if rest == [] {
      assert s == line;
      IndexOfAbsent(line, Newline);
    } else {
      IndexOfFirst(s, Newline, |line|);
    }
    assert s[|line|..] == rest;
  }

  /** The stripper agrees with the line-by-line statement on every input:
      every newline stays and each line keeps exactly its bytes before its
      first `#`. */
  lemma {:induction false} StripIsLineByLine(s: seq<byte>)
    ensures Strip(s) == StripByLine(s)
    decreases |s|
  {
    var n := IndexOf(s, Newline);
    if n == |s| {
      StripLastLine(s);
    } else {
      StripFirstLine(s, n);
      StripIsLineByLine(s[n + 1..]);
    }
  }

  /** A last line, with no newline, strips to its bytes before its `#`. */
  lemma StripLastLine(s: seq<byte>)
    requires IndexOf(s, Newline) == |s|
    ensures Strip(s) == BeforeComment(s)
  {
    IndexOfIsFirst(s, Newline);
    assert s + [] == s;
    StripLine(s, []);
  }

  /** A first line ended by a newline strips to its bytes before its `#`,
      that newline and the stripped rest. */
  lemma StripFirstLine(s: seq<byte>, n: nat)
    requires n == IndexOf(s, Newline) < |s|
    ensures Strip(s) == BeforeComment(s[..n]) + [Newline] + Strip(s[n + 1..])
  {
    StripBeforeNewline(s, n);
    StripAtNewline(s, n);
  }

  /** Stripping goes through the first line without touching what follows. */
  lemma StripBeforeNewline(s: seq<byte>, n: nat)
    requires n == IndexOf(s, Newline)
    ensures Strip(s) == BeforeComment(s[..n]) + Strip(s[n..])
  {
    assert s == s[..n] + s[n..];
    IndexOfIsFirst(s, Newline);
    StripLine(s[..n], s[n..]);
  }

  /** A newline is kept and stripping goes on after it. */
  lemma StripAtNewline(s: seq<byte>, n: nat)
    requires n < |s| && s[n] == Newline
    ensures Strip(s[n..]) == [Newline] + Strip(s[n + 1..])
  {
    assert s[n..][1..] == s[n + 1..];
  }

  /** Stripping keeps every newline: their number does not change. */
  lemma {:induction false} StripKeepsNewlines(s: seq<byte>)
    ensures multiset(Strip(s))[Newline] == multiset(s)[Newline]
    decreases |s|
  {
    if s == [] {
    } else if s[0] == Hash {
      var n := IndexOf(s, Newline);
      assert s == s[..n] + s[n..];
      assert multiset(s[..n])[Newline] == 0 by {
        IndexOfIsFirst(s, Newline);
        assert Newline !in s[..n];
      }
      StripKeepsNewlines(s[n..]);
    } else {
      assert s == [s[0]] + s[1..];
      StripKeepsNewlines(s[1..]);
    }
  }

  /** Input without a `#` comes back unchanged. */
  lemma {:induction false} StripWithoutComments(s: seq<byte>)
    requires Hash !in s
    ensures Strip(s) == s
    decreases |s|
  {
    if s != [] {
      StripWithoutComments(s[1..]);
    }
  }

  /** Stripping twice is stripping once. */
  lemma StripIdempotent(s: seq<byte>)
    ensures Strip(Strip(s)) == Strip(s)
  {
    StripWithoutComments(Strip(s));
  }
}
