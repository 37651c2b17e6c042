/** The buffer `readFiles` assembles before compaction (config.go:45-59),
    for the fragments in the order the channel delivered them, and the
    buffer the comma rule "only between non-empty fragments" gives. */
module Merge {
  import opened ByteStrings

  /** The fragments that are not empty, in the order given. */
  function NonEmpty(xs: seq<seq<byte>>): (r: seq<seq<byte>>)
    ensures |r| <= |xs|
    ensures forall i :: 0 <= i < |r| ==> r[i] != []
  {
    if xs == [] then []
    else NonEmpty(xs[..|xs| - 1]) + (if xs[|xs| - 1] == [] then [] else [xs[|xs| - 1]])
  }

  /** The code as written puts a comma after the last fragment it writes
      exactly when some fragment was written and the last one received was
      empty: the comma test compares the position with the total count. */
  predicate Dangling(received: seq<seq<byte>>)
  {
    |NonEmpty(received)| > 0 && received[|received| - 1] == []
  }

  /** The buffer before compaction, as config.go:45-59 builds it. */
  function Merged(received: seq<seq<byte>>): (r: seq<byte>)
    ensures |r| >= 2 && r[0] == OpenBrace && r[|r| - 1] == CloseBrace
    ensures received == [] ==> r == [OpenBrace, CloseBrace]
  {
    [OpenBrace] + Join(NonEmpty(received), [Comma])
    + (if Dangling(received) then [Comma] else []) + [CloseBrace]
  }

  /** The buffer when commas go only between non-empty fragments. */
  function Separated(fragments: seq<seq<byte>>): (r: seq<byte>)
    ensures |r| >= 2 && r[0] == OpenBrace && r[|r| - 1] == CloseBrace
    ensures NonEmpty(fragments) == [] ==> r == [OpenBrace, CloseBrace]
  {
    [OpenBrace] + Join(NonEmpty(fragments), [Comma]) + [CloseBrace]
  }

  /** The receive loop of readFiles: `{`, then each non-empty fragment
      received at position i (counted from 1) followed by `,` when
      i < lfs, then `}`. */
  method BuildBuffer(received: seq<seq<byte>>) returns (buf: seq<byte>)
    ensures buf == Merged(received)
  {
    var lfs := |received|;
    buf := [OpenBrace];
    assert received[..0] == [];
    for i := 1 to lfs + 1
      invariant buf == Written(received, i - 1)
    {
      var content := received[i - 1];
      WrittenStep(received, i);
      if |content| == 0 {
        continue;
      }
      buf := buf + content;
      if i < lfs {
        buf := buf + [Comma];
      }
    }
    assert received[..lfs] == received;
    buf := buf + [CloseBrace];
  }

  /** The buffer once the first k fragments have been received: the
      non-empty ones joined by commas, and a comma after the last of them
      when one was written and either more fragments are to come or the
      last received fragment is empty. */
  function Written(received: seq<seq<byte>>, k: nat): seq<byte>
    requires k <= |received|
  {
    var written := NonEmpty(received[..k]);
    [OpenBrace] + Join(written, [Comma])
    + (if written != [] && (k < |received| || received[|received| - 1] == []) then [Comma] else [])
  }

  /** Receiving fragment i (counted from 1) writes it, if it is not empty,
      and then a comma when i < lfs. */
  lemma WrittenStep(received: seq<seq<byte>>, i: nat)
    requires 1 <= i <= |received|
    ensures Written(received, i)
            == Written(received, i - 1)
               + (if received[i - 1] == [] then []
                  else received[i - 1] + (if i < |received| then [Comma] else []))
  {
    NonEmptySnoc(received, i - 1);
    if received[i - 1] == [] {
      assert NonEmpty(received[..i]) == NonEmpty(received[..i - 1]);
    } else {
      WrittenFragment(received, i, NonEmpty(received[..i - 1]));
    }
  }

  /** WrittenStep for a non-empty fragment. */
  lemma WrittenFragment(received: seq<seq<byte>>, i: nat, written: seq<seq<byte>>)
    requires 1 <= i <= |received| && received[i - 1] != []
    requires written == NonEmpty(received[..i - 1])
    requires NonEmpty(received[..i]) == written + [received[i - 1]]
    ensures Written(received, i)
            == Written(received, i - 1) + received[i - 1] + (if i < |received| then [Comma] else [])
  {
    var content := received[i - 1];
    var comma: seq<byte> := if i < |received| then [Comma] else [];
    var before := [OpenBrace] + Join(written, [Comma]) + (if written != [] then [Comma] else []);
    assert Written(received, i - 1) == before;
    assert Written(received, i) == [OpenBrace] + Join(written + [content], [Comma]) + comma by {
      assert i == |received| ==> received[|received| - 1] == content;
    }
    assert [OpenBrace] + Join(written + [content], [Comma]) == before + content by {
      JoinSnoc(written, content, [Comma]);
    }
  }

  /** Taking one more fragment of a prefix adds it when it is not empty. */
  lemma NonEmptySnoc(xs: seq<seq<byte>>, k: nat)
    requires k < |xs|
    ensures NonEmpty(xs[..k + 1]) == NonEmpty(xs[..k]) + (if xs[k] == [] then [] else [xs[k]])
  {
    assert xs[..k + 1][..k] == xs[..k];
  }

  /** The loop with the comma rule "between non-empty fragments only": a
      comma goes before every non-empty fragment but the first written. */
  method BuildSeparatedBuffer(fragments: seq<seq<byte>>) returns (buf: seq<byte>)
    ensures buf == Separated(fragments)
  {
    buf := [OpenBrace];
    var wrote := false;
    for i := 0 to |fragments|
      invariant wrote == (NonEmpty(fragments[..i]) != [])
      invariant buf == [OpenBrace] + Join(NonEmpty(fragments[..i]), [Comma])
    {
      var content := fragments[i];
      ghost var written := NonEmpty(fragments[..i]);
      NonEmptySnoc(fragments, i);
      if |content| == 0 {
        assert NonEmpty(fragments[..i + 1]) == written;
        continue;
      }
      assert NonEmpty(fragments[..i + 1]) == written + [content];
      JoinSnoc(written, content, [Comma]);
      if wrote {
        buf := buf + [Comma];
      }
      buf := buf + content;
      assert buf == [OpenBrace] + Join(written + [content], [Comma]);
      wrote := true;
    }
    assert fragments[..|fragments|] == fragments;
    buf := buf + [CloseBrace];
  }

  /** Filtering a concatenation filters each part. */
  lemma {:induction false} NonEmptyAppend(xs: seq<seq<byte>>, ys: seq<seq<byte>>)
    ensures NonEmpty(xs + ys) == NonEmpty(xs) + NonEmpty(ys)
    decreases |ys|
  {
    if ys == [] {
      assert xs + ys == xs;
    } else {
      var last := |ys| - 1;
      assert (xs + ys)[..|xs + ys| - 1] == xs + ys[..last];
      NonEmptyAppend(xs, ys[..last]);
    }
  }

  /** When no fragment is empty, none is dropped. */
  lemma {:induction false} NonEmptyKeepsAll(xs: seq<seq<byte>>)
    requires forall i :: 0 <= i < |xs| ==> xs[i] != []
    ensures NonEmpty(xs) == xs
    decreases |xs|
  {
    if xs != [] {
      NonEmptyKeepsAll(xs[..|xs| - 1]);
    }
  }

  /** The non-empty fragments are the received ones with the empty ones
      taken out, each as often as it was received. */
  lemma {:induction false} NonEmptyCounts(xs: seq<seq<byte>>)
    ensures multiset(NonEmpty(xs)) == multiset(xs)[[] := 0]
    decreases |xs|
  {
    if xs != [] {
      var last := |xs| - 1;
      assert xs == xs[..last] + [xs[last]];
      NonEmptyCounts(xs[..last]);
    }
  }

  /** Two receive orders of the same fragments write the same non-empty
      fragments, possibly in another order. */
  lemma ReceiveOrderKeepsFragments(a: seq<seq<byte>>, b: seq<seq<byte>>)
    requires multiset(a) == multiset(b)
    ensures multiset(NonEmpty(a)) == multiset(NonEmpty(b))
  {
    NonEmptyCounts(a);
    NonEmptyCounts(b);
  }

  /** With no empty fragment the buffer is `{`, the fragments joined by
      commas in received order, and `}`. */
  lemma MergedAllNonEmpty(received: seq<seq<byte>>)
    requires forall i :: 0 <= i < |received| ==> received[i] != []
    ensures Merged(received) == [OpenBrace] + Join(received, [Comma]) + [CloseBrace]
  {
    NonEmptyKeepsAll(received);
  }

  /** A single fragment is wrapped in braces as it is, empty or not. */
  lemma MergedSingle(fragment: seq<byte>)
    ensures Merged([fragment]) == [OpenBrace] + fragment + [CloseBrace]
  {
    var one := [fragment];
    assert one[..0] == [];
    assert NonEmpty(one) == if fragment == [] then [] else one;
  }

  /** An empty fragment received anywhere but last adds neither bytes nor
      a comma. */
  lemma EmptyFragmentAddsNothing(received: seq<seq<byte>>, k: nat)
    requires k < |received|
    ensures Merged(received[..k] + [[]] + received[k..]) == Merged(received)
  {
    var with := received[..k] + [[]] + received[k..];
    assert received == received[..k] + received[k..];
    NonEmptyAppend(received[..k] + [[]], received[k..]);
    NonEmptyAppend(received[..k], [[]]);
    NonEmptyAppend(received[..k], received[k..]);
    var lone: seq<seq<byte>> := [[]];
    assert NonEmpty(lone) == [] by {
      assert lone[..0] == [];
    }
    assert NonEmpty(with) == NonEmpty(received);
    assert with[|with| - 1] == received[|received| - 1];
    assert Dangling(with) == Dangling(received);
  }

  /** An empty fragment received last, after some non-empty one, leaves a
      comma straight before the closing brace. */
  lemma TrailingEmptyLeavesComma(received: seq<seq<byte>>)
    requires NonEmpty(received) != []
    ensures Merged(received + [[]])
            == [OpenBrace] + Join(NonEmpty(received), [Comma]) + [Comma, CloseBrace]
  {
    var with := received + [[]];
    assert with[..|with| - 1] == received;
    assert NonEmpty(with) == NonEmpty(received);
    assert Dangling(with);
  }

  /** The buffer the code builds and the one the comma rule between
      non-empty fragments builds differ exactly when a comma dangles. */
  lemma MergedIsSeparatedUnlessDangling(received: seq<seq<byte>>)
    ensures Merged(received) == Separated(received) <==> !Dangling(received)
  {
    if Dangling(received) {
      assert |Merged(received)| == |Separated(received)| + 1;
    }
  }

  /** Under the comma rule between non-empty fragments an empty fragment
      adds nothing wherever it is received, the end included. */
  lemma SeparatedIgnoresEmpty(fragments: seq<seq<byte>>, k: nat)
    requires k <= |fragments|
    ensures Separated(fragments[..k] + [[]] + fragments[k..]) == Separated(fragments)
  {
    assert fragments == fragments[..k] + fragments[k..];
    NonEmptyAppend(fragments[..k] + [[]], fragments[k..]);
    NonEmptyAppend(fragments[..k], [[]]);
    NonEmptyAppend(fragments[..k], fragments[k..]);
    var lone: seq<seq<byte>> := [[]];
    assert NonEmpty(lone) == [] by {
      assert lone[..0] == [];
    }
    assert NonEmpty(fragments[..k] + [[]] + fragments[k..]) == NonEmpty(fragments);
  }

  /** One JSON object member, `"a":1`. */
  const Member: seq<byte> := [34, 97, 34, 58, 49]

  /** A concrete case: the fragment `"a":1` received before an empty
      fragment gives `{"a":1,}`, which is not JSON; received after it,
      `{"a":1}`, which the comma rule between non-empty fragments gives in
      either order. */
  lemma ReceiveOrderDecidesComma()
    ensures Merged([Member, []]) == [OpenBrace] + Member + [Comma, CloseBrace]
    ensures Merged([[], Member]) == [OpenBrace] + Member + [CloseBrace]
    ensures Separated([Member, []]) == [OpenBrace] + Member + [CloseBrace]
  {
    var one := Member;
    assert [one, []][..1] == [one] && [one][..0] == [];
    var lone: seq<seq<byte>> := [[]];
    assert [[], one][..1] == lone && lone[..0] == [];
    assert NonEmpty([one, []]) == [one];
    assert NonEmpty([[], one]) == [one];
  }
}
