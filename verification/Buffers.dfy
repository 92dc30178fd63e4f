/**
 Lists of buffers: what a gather-write puts on the wire, and the reads that a
 stream is cut into.
 */
module Buffers {

  function Concat<C>(chunks: seq<seq<C>>): seq<C>
  {
    if chunks == [] then [] else Concat(chunks[..|chunks| - 1]) + chunks[|chunks| - 1]
  }

  /** push_back */
  function Push<C>(chunks: seq<seq<C>>, c: seq<C>): (r: seq<seq<C>>)
    ensures Concat(r) == Concat(chunks) + c
  {
    ConcatAppend(chunks, c);
    chunks + [c]
  }

  lemma ConcatAppend<C>(chunks: seq<seq<C>>, c: seq<C>)
    ensures Concat(chunks + [c]) == Concat(chunks) + c
  {
    assert (chunks + [c])[..|chunks|] == chunks;
  }

  lemma {:induction false} ConcatPrepend<C>(c: seq<C>, chunks: seq<seq<C>>)
    ensures Concat([c] + chunks) == c + Concat(chunks)
  {
    if chunks == [] {
      assert [c] + chunks == [c] && [c][..0] == [];
    } else {
      var all, front := [c] + chunks, chunks[..|chunks| - 1];
      ConcatPrepend(c, front);
      assert all[..|all| - 1] == [c] + front;
      assert Concat(all) == Concat([c] + front) + chunks[|chunks| - 1];
    }
  }

  /** A slice of a prefix is a slice of the whole. */
  lemma SliceOfPrefix<C>(s: seq<C>, n: nat, i: nat, k: nat)
    requires i <= k <= n <= |s|
    ensures s[..n][i..k] == s[i..k]
  {
  }
}
