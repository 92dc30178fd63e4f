/**
 The input loop that both incremental parsers of the library share: bytes are
 handed to a one-byte automaton until it reaches a verdict or the input ends.
 */
module ParseLoop {
  import opened Buffers

  /** boost::tribool. */
  datatype Tribool = False | True | Indeterminate

  /** What one byte does to an automaton with state type `S`. */
  datatype Reaction<+S> = Reaction(verdict: Tribool, state: S)

  /** What a call of `parse` leaves behind: its verdict, the state, the bytes read. */
  datatype Outcome<+S> = Outcome(verdict: Tribool, state: S, consumed: nat)

  function Run<S, C>(step: (S, C) -> Reaction<S>, s: S, input: seq<C>): (o: Outcome<S>)
    ensures o.consumed <= |input|
    ensures o.verdict == Indeterminate ==> o.consumed == |input|
    ensures o.verdict != Indeterminate ==> o.consumed > 0
  {
    if input == [] then
      Outcome(Indeterminate, s, 0)
    else
      var r := step(s, input[0]);
      if r.verdict != Indeterminate then
        Outcome(r.verdict, r.state, 1)
      else
        var rest := Run(step, r.state, input[1..]);
        rest.(consumed := 1 + rest.consumed)
  }

  /** A second call that carries the state over, as the callers of `parse` do. */
  function Resume<S, C>(step: (S, C) -> Reaction<S>, first: Outcome<S>, more: seq<C>): (o: Outcome<S>)
  {
    if first.verdict != Indeterminate then
      first
    else
      var next := Run(step, first.state, more);
      next.(consumed := first.consumed + next.consumed)
  }

  /** Reads arriving one after the other; reading stops at the first verdict. */
  function RunChunks<S, C>(step: (S, C) -> Reaction<S>, s: S, chunks: seq<seq<C>>): (o: Outcome<S>)
  {
    if chunks == [] then
      Outcome(Indeterminate, s, 0)
    else
      Resume(step, RunChunks(step, s, chunks[..|chunks| - 1]), chunks[|chunks| - 1])
  }

  /** One turn of the loop at position `i`. */
  lemma ResumeOne<S, C>(step: (S, C) -> Reaction<S>, s: S, k: nat, input: seq<C>, i: nat)
    requires i < |input|
    ensures var r := step(s, input[i]);
            Resume(step, Outcome(Indeterminate, s, k), input[i..]) ==
            if r.verdict != Indeterminate then Outcome(r.verdict, r.state, k + 1)
            else Resume(step, Outcome(Indeterminate, r.state, k + 1), input[i + 1..])
  {
    assert input[i..][0] == input[i] && input[i..][1..] == input[i + 1..];
  }

  /** Cutting the input in two does not change what is parsed. */
  lemma {:induction false} RunSplits<S, C>(step: (S, C) -> Reaction<S>, s: S, a: seq<C>, b: seq<C>)
    ensures Run(step, s, a + b) == Resume(step, Run(step, s, a), b)
    decreases |a|
  {
    if a == [] {
      assert a + b == b;
    } else {
      assert (a + b)[0] == a[0] && (a + b)[1..] == a[1..] + b;
      var r := step(s, a[0]);
      if r.verdict == Indeterminate {
        RunSplits(step, r.state, a[1..], b);
      }
    }
  }

  /** Parsing is independent of how the input was divided into reads. */
  lemma {:induction false} ChunkingIsInvisible<S, C>(step: (S, C) -> Reaction<S>, s: S, chunks: seq<seq<C>>)
    ensures RunChunks(step, s, chunks) == Run(step, s, Concat(chunks))
  {
    if chunks != [] {
      var front, last := chunks[..|chunks| - 1], chunks[|chunks| - 1];
      ChunkingIsInvisible(step, s, front);
      RunSplits(step, s, Concat(front), last);
    }
  }

  /** One more byte at the end of an input that has reached no verdict. */
  lemma {:induction false} RunAppend<S, C>(step: (S, C) -> Reaction<S>, s: S, a: seq<C>, c: C)
    ensures var o := Run(step, s, a);
            Run(step, s, a + [c]) ==
            if o.verdict != Indeterminate then o
            else var r := step(o.state, c); Outcome(r.verdict, r.state, |a| + 1)
  {
    RunSplits(step, s, a, [c]);
    var o := Run(step, s, a);
    assert [c][0] == c && [c][1..] == [];
    assert Run(step, step(o.state, c).state, [][..0]) == Outcome(Indeterminate, step(o.state, c).state, 0);
    assert Run(step, o.state, [c]) == Outcome(step(o.state, c).verdict, step(o.state, c).state, 1);
  }

  /** A verdict depends on the bytes read only. */
  lemma {:induction false} VerdictIsStable<S, C>(step: (S, C) -> Reaction<S>, s: S, a: seq<C>, tail: seq<C>)
    requires Run(step, s, a).verdict != Indeterminate
    ensures Run(step, s, a + tail) == Run(step, s, a)
    ensures Run(step, s, a[..Run(step, s, a).consumed]) == Run(step, s, a)
  {
    RunSplits(step, s, a, tail);
    var n := Run(step, s, a).consumed;
    assert a == a[..n] + a[n..];
    RunSplits(step, s, a[..n], a[n..]);
  }

  /** A stretch of input that the automaton goes through without a verdict, given the state after each part of it. */
  lemma {:induction false} Feed<S, C>(step: (S, C) -> Reaction<S>, after: seq<C> -> S, input: seq<C>)
    requires forall k | 0 <= k < |input| :: step(after(input[..k]), input[k]) == Reaction(Indeterminate, after(input[..k + 1]))
    ensures Run(step, after([]), input) == Outcome(Indeterminate, after(input), |input|)
    decreases |input|
  {
    if input == [] {
    } else {
      var n := |input| - 1;
      var front := input[..n];
      forall k | 0 <= k < n
        ensures step(after(front[..k]), front[k]) == Reaction(Indeterminate, after(front[..k + 1]))
      {
        assert front[..k] == input[..k] && front[..k + 1] == input[..k + 1];
      }
      Feed(step, after, front);
      assert input == front + [input[n]] && input[..n + 1] == input;
      RunAppend(step, after([]), front, input[n]);
    }
  }

  /** Two such stretches one after the other. */
  lemma FeedBoth<S, C>(step: (S, C) -> Reaction<S>, s: S, a: seq<C>, b: seq<C>)
    requires Run(step, s, a).verdict == Indeterminate
    requires Run(step, Run(step, s, a).state, b).verdict == Indeterminate
    ensures Run(step, s, a + b) == Outcome(Indeterminate, Run(step, Run(step, s, a).state, b).state, |a| + |b|)
  {
    RunSplits(step, s, a, b);
  }
}
