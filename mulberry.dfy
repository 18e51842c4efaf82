/** The pseudo-random generator `mulberry32`: one 32-bit state word, advanced
    by a constant on every call, and an output mixed from the new state. */
module Mulberry {
  import opened Words

  const Increment: Word := 0x6D2B_79F5

  /** The output word of a call whose advanced state is `a`, before the
      division by 2^32 that turns it into a fraction. */
  function Mix(a: Word): Word
  {
    var t := (a ^ (a >> 15)) * (a | 1);
    var t' := t ^ (t + (t ^ (t >> 7)) * (t | 61));
    t' ^ (t' >> 14)
  }

  /** The state after `n` calls of a generator seeded with `seed`. */
  function StateAt(seed: Word, n: nat): Word
  {
    if n == 0 then seed else StateAt(seed, n - 1) + Increment
  }

  /** The words returned by the first `n` calls, in order, when a call with
      advanced state `a` returns `out(a)`. Kept apart from `Mix` so that the
      lemmas about the order of the calls need not look inside the mixing. */
  function Outputs(out: Word -> Word, seed: Word, n: nat): (r: seq<Word>)
    ensures |r| == n
  {
    if n == 0 then [] else Outputs(out, seed, n - 1) + [out(StateAt(seed, n))]
  }

  /** The first `n` words drawn from a generator seeded with `seed`. */
  function Draws(seed: Word, n: nat): (r: seq<Word>)
    ensures |r| == n
  {
    Outputs(Mix, seed, n)
  }

  lemma {:induction false} OutputAt(out: Word -> Word, seed: Word, n: nat, k: nat)
    requires k < n
    ensures Outputs(out, seed, n)[k] == out(StateAt(seed, k + 1))
  {
    if k < n - 1 {
      OutputAt(out, seed, n - 1, k);
    }
  }

  /** Call k (counting from 0) returns the mix of the state after k + 1
      steps, however many calls follow it. */
  lemma DrawAt(seed: Word, n: nat, k: nat)
    requires k < n
    ensures Draws(seed, n)[k] == Mix(StateAt(seed, k + 1))
  {
    OutputAt(Mix, seed, n, k);
  }

  lemma {:induction false} OutputsPrefix(out: Word -> Word, seed: Word, m: nat, n: nat)
    requires m <= n
    ensures Outputs(out, seed, m) == Outputs(out, seed, n)[..m]
    decreases n
  {
    if m < n {
      OutputsPrefix(out, seed, m, n - 1);
      assert Outputs(out, seed, n)[..n - 1] == Outputs(out, seed, n - 1);
    } else {
      assert Outputs(out, seed, n)[..n] == Outputs(out, seed, n);
    }
  }

  /** Fewer calls see a prefix of the same sequence of words. */
  lemma DrawsPrefix(seed: Word, m: nat, n: nat)
    requires m <= n
    ensures Draws(seed, m) == Draws(seed, n)[..m]
  {
    OutputsPrefix(Mix, seed, m, n);
  }

  /** `mulberry32(seed)`: the closure with its captured state `a`. `seed`,
      `count` and `drawn` are the proof's view: the seed, the number of calls
      so far and the words they returned. */
  class Generator {
    var a: Word
    ghost const seed: Word
    ghost var count: nat
    ghost var drawn: seq<Word>

    ghost predicate Valid()
      reads this
    {
      a == StateAt(seed, count) && drawn == Draws(seed, count)
    }

    constructor (hash: Word)
      ensures Valid()
      ensures seed == hash && a == hash && count == 0 && drawn == []
    {
      a := hash;
      seed := hash;
      count := 0;
      drawn := [];
    }

    /** One call of the closure: advance the state and return the next
        draw. By `Valid` and `DrawAt`, `u` is `Mix` of the new state. */
    method Next() returns (u: Word)
      requires Valid()
      modifies this
      ensures Valid()
      ensures a == old(a) + Increment
      ensures count == old(count) + 1 && drawn == old(drawn) + [u]
    {
      a := a + Increment;
      u := Mix(a);
      count := count + 1;
      drawn := drawn + [u];
    }
  }

  /** n calls after m calls are m + n calls. */
  lemma {:induction false} StateAtAdd(seed: Word, m: nat, n: nat)
    ensures StateAt(seed, m + n) == StateAt(StateAt(seed, m), n)
    decreases n
  {
    if n > 0 {
      StateAtAdd(seed, m, n - 1);
    }
  }

  /** The state after sixteen calls from the hash of "example.com". */
  lemma GoldenState()
    ensures StateAt(0x431C_EB26, 16) == 0x15D4_8A76
  {
    StateAtAdd(0x431C_EB26, 8, 8);
    assert StateAt(0x431C_EB26, 8) == 0xAC78_BACE;
  }

  /** Golden values: the first three words drawn for the hash of
      "example.com" (0x431CEB26). */
  lemma GoldenDraws()
    ensures Draws(0x431C_EB26, 3) == [0x4D6E_E84F, 0xA31D_6B34, 0xB6CE_D4D7]
  {
  }
}
