/** Byte strings as Go's []byte and string hold them, with the few byte
    values the loader looks at and two sequence helpers shared by the
    comment stripper, the fragment merger and the path functions. */
module ByteStrings {

  /** One byte of a Go []byte or string. */
  newtype byte = x: int | 0 <= x < 256

  const Newline: byte := 10     // '\n'
  const Hash: byte := 35        // '#'
  const Comma: byte := 44       // ','
  const Dot: byte := 46         // '.'
  const Slash: byte := 47       // '/'
  const OpenBrace: byte := 123  // '{'
  const CloseBrace: byte := 125 // '}'

  /** Position of the first b in s, or |s| when s holds no b. */
  function IndexOf(s: seq<byte>, b: byte): (n: nat)
    ensures n <= |s|
    ensures n < |s| ==> s[n] == b
    ensures s != [] && s[0] != b ==> n >= 1
  {
    if s == [] || s[0] == b then 0 else 1 + IndexOf(s[1..], b)
  }

  /** No b comes before the position IndexOf gives. */
  lemma {:induction false} IndexOfIsFirst(s: seq<byte>, b: byte)
    ensures forall k :: 0 <= k < IndexOf(s, b) ==> s[k] != b
  {
    if s != [] && s[0] != b {
      IndexOfIsFirst(s[1..], b);
    }
  }

  /** IndexOf only looks as far as the first match. */
  lemma {:induction false} IndexOfPrefix(s: seq<byte>, t: seq<byte>, b: byte)
    requires IndexOf(s, b) < |s|
    ensures IndexOf(s + t, b) == IndexOf(s, b)
  {
    if s[0] != b {
      assert (s + t)[1..] == s[1..] + t;
      IndexOfPrefix(s[1..], t, b);
    }
  }

  /** A b with no b before it is the first one. */
  lemma {:induction false} IndexOfFirst(s: seq<byte>, b: byte, k: nat)
    requires k < |s| && s[k] == b
    requires forall j :: 0 <= j < k ==> s[j] != b
    ensures IndexOf(s, b) == k
  {
    if k > 0 {
      IndexOfFirst(s[1..], b, k - 1);
    }
  }

  /** Without a b, IndexOf gives the length. */
  lemma {:induction false} IndexOfAbsent(s: seq<byte>, b: byte)
    requires forall j :: 0 <= j < |s| ==> s[j] != b
    ensures IndexOf(s, b) == |s|
  {
    if s != [] {
      IndexOfAbsent(s[1..], b);
    }
  }

  /** The pieces laid end to end with sep between neighbours, as Go's
      bytes.Join and strings.Join do. */
  function Join(pieces: seq<seq<byte>>, sep: seq<byte>): seq<byte>
  {
    if pieces == [] then []
    else if |pieces| == 1 then pieces[0]
    else pieces[0] + sep + Join(pieces[1..], sep)
  }

  /** Joining one more piece adds a separator and that piece at the end. */
  lemma {:induction false} JoinSnoc(pieces: seq<seq<byte>>, p: seq<byte>, sep: seq<byte>)
    ensures Join(pieces + [p], sep) == if pieces == [] then p else Join(pieces, sep) + sep + p
  {
    if |pieces| == 1 {
      assert (pieces + [p])[1..] == [p];
    } else if |pieces| > 1 {
      assert (pieces + [p])[1..] == pieces[1..] + [p];
      JoinSnoc(pieces[1..], p, sep);
    }
  }
}
