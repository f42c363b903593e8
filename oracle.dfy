/**
 * The simulation's single source of randomness, made explicit.
 *
 * Every call the engine makes into Python's `random` module (`random()`,
 * `randint`, `choice`, `sample`, `shuffle`) draws from one `Rng` object in the
 * order the source makes the calls. An `Rng` is two fixed streams of values,
 * one of reals in [0, 1) and one of naturals, and a cursor that every draw
 * advances by one. Two runs with equal streams make equal draws, which is the
 * determinism the engine relies on; nothing is assumed about how the streams
 * are distributed.
 */
module Oracle {

  /** A value of `random.random()`: a real in [0, 1). */
  type Unit = r: real | 0.0 <= r < 1.0

  class Rng {
    const reals: nat -> Unit
    const ints: nat -> nat
    /** Index of the next draw. */
    var next: nat

    constructor (reals: nat -> Unit, ints: nat -> nat)
      ensures this.reals == reals && this.ints == ints && next == 0
    {
      this.reals := reals;
      this.ints := ints;
      next := 0;
    }

    /** The value `randbelow(n)` produces when it is draw number `t`. */
    function BelowAt(t: nat, n: nat): (r: nat)
      requires n > 0
      ensures r < n
    {
      ints(t) % n
    }

    /**
     * The two distinct positions `random.sample(xs, 2)` picks from a list of
     * length `n` when its draws start at number `t`: a first position, then a
     * second one among the remaining `n - 1`.
     */
    function PairAt(t: nat, n: nat): (r: (nat, nat))
      requires n >= 2
      ensures r.0 < n && r.1 < n && r.0 != r.1
    {
      var a := BelowAt(t, n);
      var b := BelowAt(t + 1, n - 1);
      (a, if b >= a then b + 1 else b)
    }

    /** `random.random()`. */
    method Random() returns (r: Unit)
      modifies this`next
      ensures r == reals(old(next)) && next == old(next) + 1
    {
      r := reals(next);
      next := next + 1;
    }

    /** `random.randint(lo, hi)`: an integer in the closed range [lo, hi]. */
    method RandInt(lo: int, hi: int) returns (r: int)
      requires lo <= hi
      modifies this`next
      ensures lo <= r <= hi
      ensures r == lo + BelowAt(old(next), hi - lo + 1) && next == old(next) + 1
    {
      r := lo + BelowAt(next, hi - lo + 1);
      next := next + 1;
    }

    /** The index behind `random.choice(xs)` for a list of length `n`. */
    method Below(n: nat) returns (i: nat)
      requires n > 0
      modifies this`next
      ensures i < n
      ensures i == BelowAt(old(next), n) && next == old(next) + 1
    {
      i := BelowAt(next, n);
      next := next + 1;
    }

    /** The two positions behind `random.sample(xs, 2)` for a list of length `n`. */
    method Sample2(n: nat) returns (a: nat, b: nat)
      requires n >= 2
      modifies this`next
      ensures a < n && b < n && a != b
      ensures (a, b) == PairAt(old(next), n) && next == old(next) + 2
    {
      a, b := PairAt(next, n).0, PairAt(next, n).1;
      next := next + 2;
    }

    /**
     * `random.shuffle(xs)`, as Python performs it: walk the list from the
     * back and swap each position with a position drawn at or below it. The
     * result is a permutation of the input, and one draw is made for every
     * position but the first.
     */
    method Shuffle<T>(s: seq<T>) returns (t: seq<T>)
      modifies this`next
      ensures |t| == |s| && multiset(t) == multiset(s)
      ensures forall x :: x in t <==> x in s
      ensures next == old(next) + (if |s| > 1 then |s| - 1 else 0)
    {
      t := s;
      var i := |t|;
      while i > 1
        invariant 0 <= i <= |t| == |s|
        invariant multiset(t) == multiset(s)
        invariant next == old(next) + (if |s| > 1 then |s| - i else 0)
        invariant |s| > 1 ==> i >= 1
      {
        var k := Below(i);
        i := i - 1;
        var before := t;
        t := t[i := before[k]][k := before[i]];
        SwapPermutes(before, i, k);
      }
      assert forall x :: x in t <==> x in multiset(s);
    }
  }

  /** Swapping two positions of a sequence keeps its elements. */
  lemma SwapPermutes<T>(s: seq<T>, i: nat, k: nat)
    requires i < |s| && k < |s|
    ensures multiset(s[i := s[k]][k := s[i]]) == multiset(s)
  {
    if i != k {
      calc {
        multiset(s[i := s[k]][k := s[i]]);
        multiset(s[i := s[k]]) - multiset{s[i := s[k]][k]} + multiset{s[i]};
        multiset(s) - multiset{s[i]} + multiset{s[k]} - multiset{s[k]} + multiset{s[i]};
        multiset(s);
      }
    }
  }
}
