/** Machines that read a stream one item at a time and now and then emit numbers. */
module Machines {

  datatype Machine<!S, !B> = Machine(next: (S, B) -> S, out: (S, B) -> seq<nat>)

  /** The state after the first n items of t. */
  function Run<S, B>(m: Machine<S, B>, s: S, t: seq<B>, n: nat): S
    requires n <= |t|
  {
    if n == 0 then s else m.next(Run(m, s, t, n - 1), t[n - 1])
  }

  /** What the machine emits on the first n items of t. */
  function Output<S, B>(m: Machine<S, B>, s: S, t: seq<B>, n: nat): seq<nat>
    requires n <= |t|
  {
    if n == 0 then [] else Output(m, s, t, n - 1) + m.out(Run(m, s, t, n - 1), t[n - 1])
  }

  /** Where a machine stands after the first n items of t, and what it has emitted. */
  predicate Stands<S(==), B>(m: Machine<S, B>, s0: S, t: seq<B>, n: nat, s: S, out: seq<nat>) {
    n <= |t| && s == Run(m, s0, t, n) && out == Output(m, s0, t, n)
  }

  function Sum(ns: seq<nat>): nat {
    if ns == [] then 0 else ns[0] + Sum(ns[1..])
  }

  lemma SumOne(n: nat)
    ensures Sum([n]) == n && Sum([]) == 0
  {
  }

  lemma {:induction false} SumConcat(a: seq<nat>, b: seq<nat>)
    ensures Sum(a + b) == Sum(a) + Sum(b)
    decreases |a|
  {
    if a == [] {
      assert a + b == b;
    } else {
      assert (a + b)[1..] == a[1..] + b;
      SumConcat(a[1..], b);
    }
  }

  /** Where the i-th of the lengths starts. */
  function StartOf(lens: seq<nat>, i: nat): nat
    requires i <= |lens|
  {
    if i == 0 then 0 else StartOf(lens, i - 1) + lens[i - 1]
  }

  lemma {:induction false} StartInTail(lens: seq<nat>, i: nat)
    requires 0 < i <= |lens|
    ensures StartOf(lens, i) == lens[0] + StartOf(lens[1..], i - 1)
    decreases i
  {
    if i > 1 {
      StartInTail(lens, i - 1);
    }
  }

  /** The end of the last is the sum of all. */
  lemma {:induction false} StartOfEnd(lens: seq<nat>)
    ensures StartOf(lens, |lens|) == Sum(lens)
    decreases |lens|
  {
    if lens != [] {
      StartInTail(lens, |lens|);
      StartOfEnd(lens[1..]);
    }
  }

  /** The i-th of the lengths marks off a segment. */
  predicate MarksOff(segment: (nat, nat) -> bool, lens: seq<nat>, i: nat)
    requires i < |lens|
  {
    segment(StartOf(lens, i), StartOf(lens, i + 1))
  }

  /** All but the last mark off segments, and the last a rest. */
  predicate Divided(segment: (nat, nat) -> bool, rest: (nat, nat) -> bool, lens: seq<nat>) {
    && lens != []
    && (forall i | 0 <= i < |lens| - 1 :: MarksOff(segment, lens, i))
    && MarksOff(rest, lens, |lens| - 1)
  }

  lemma {:induction false} SameStarts(cuts: seq<nat>, last: nat, i: nat)
    requires i <= |cuts|
    ensures StartOf(cuts + [last], i) == StartOf(cuts, i)
    decreases i
  {
    if i > 0 {
      SameStarts(cuts, last, i - 1);
    }
  }

  lemma SameMark(segment: (nat, nat) -> bool, cuts: seq<nat>, last: nat, i: nat)
    requires i < |cuts| && MarksOff(segment, cuts, i)
    ensures MarksOff(segment, cuts + [last], i)
  {
    SameStarts(cuts, last, i);
    SameStarts(cuts, last, i + 1);
  }

  lemma WithRest(segment: (nat, nat) -> bool, rest: (nat, nat) -> bool, cuts: seq<nat>, last: nat)
    requires forall i | 0 <= i < |cuts| :: MarksOff(segment, cuts, i)
    requires rest(StartOf(cuts, |cuts|), StartOf(cuts, |cuts|) + last)
    ensures Divided(segment, rest, cuts + [last])
  {
    forall i | 0 <= i < |cuts| ensures MarksOff(segment, cuts + [last], i) {
      SameMark(segment, cuts, last, i);
    }
    SameStarts(cuts, last, |cuts|);
  }

  /** If each item adds one to what is held plus what is emitted, so does each on every run. */
  lemma {:induction false} Conservation<S(!new), B(!new)>(m: Machine<S, B>, held: S -> nat, s: S, t: seq<B>, n: nat)
    requires n <= |t| && forall s', b :: held(m.next(s', b)) + Sum(m.out(s', b)) == held(s') + 1
    ensures held(Run(m, s, t, n)) + Sum(Output(m, s, t, n)) == held(s) + n
  {
    if n > 0 {
      Conservation(m, held, s, t, n - 1);
      SumConcat(Output(m, s, t, n - 1), m.out(Run(m, s, t, n - 1), t[n - 1]));
    }
  }

  /** A property every item keeps holds after every run. */
  lemma {:induction false} Invariance<S(!new), B(!new)>(m: Machine<S, B>, holds: S -> bool, s: S, t: seq<B>, n: nat)
    requires n <= |t| && holds(s) && forall s', b :: holds(s') ==> holds(m.next(s', b))
    ensures holds(Run(m, s, t, n))
  {
    if n > 0 {
      Invariance(m, holds, s, t, n - 1);
    }
  }

  /** `piece` stands in t at position k. */
  predicate PieceAt<B(==)>(t: seq<B>, k: nat, piece: seq<B>) {
    k + |piece| <= |t| && forall i | k <= i < k + |piece| :: t[i] == piece[i - k]
  }

  /** Reading a piece from where the machine stands in t continues the reading of t. */
  lemma {:induction false} RunPiece<S, B>(m: Machine<S, B>, s: S, t: seq<B>, k: nat, piece: seq<B>, n: nat)
    requires PieceAt(t, k, piece) && n <= |piece|
    ensures Run(m, s, t, k + n) == Run(m, Run(m, s, t, k), piece, n)
    ensures Output(m, s, t, k + n) == Output(m, s, t, k) + Output(m, Run(m, s, t, k), piece, n)
  {
    if n > 0 {
      RunPiece(m, s, t, k, piece, n - 1);
    }
  }

  lemma RunConcat<S, B>(m: Machine<S, B>, s: S, t: seq<B>, u: seq<B>, n: nat)
    requires n <= |u|
    ensures Run(m, s, t + u, |t| + n) == Run(m, Run(m, s, t, |t|), u, n)
    ensures Output(m, s, t + u, |t| + n) == Output(m, s, t, |t|) + Output(m, Run(m, s, t, |t|), u, n)
  {
    RunPiece(m, s, t + u, 0, t, |t|);
    RunPiece(m, s, t + u, |t|, u, n);
  }

  /** The last n items of a piece stand where they should. */
  lemma PieceRest<B>(t: seq<B>, k: nat, piece: seq<B>, n: nat, at: nat)
    requires PieceAt(t, k, piece) && n <= |piece| && at + n == k + |piece|
    ensures PieceAt(t, at, piece[|piece| - n..])
  {
  }
}
