/** utils/random.h: the generator, replaced in place by one linear step. */
module Randoms {

  /** One step of the 16-bit Galois shift register, feedback x^16 + x^14 + x^13 + x^11. */
  function Next(s: bv16): bv16 {
    (s >> 1) ^ ((0 - (s & 1)) & 0xb400)
  }

  /** The step backwards. */
  function Previous(s: bv16): bv16 {
    if s & 0x8000 != 0 then ((s ^ 0xb400) << 1) | 1 else s << 1
  }

  lemma {:induction false} NextCases(s: bv16)
    ensures s & 1 == 0 ==> (s >> 1) ^ ((0 - (s & 1)) & 0xb400) == s >> 1
    ensures s & 1 != 0 ==> (s >> 1) ^ ((0 - (s & 1)) & 0xb400) == (s >> 1) ^ 0xb400
  {
  }

  lemma {:induction false} ShiftBack(s: bv16)
    ensures (s >> 1) & 0x8000 == 0
    ensures ((s >> 1) ^ 0xb400) & 0x8000 != 0
    ensures s & 1 == 0 ==> (s >> 1) << 1 == s
    ensures s & 1 != 0 ==> ((((s >> 1) ^ 0xb400) ^ 0xb400) << 1) | 1 == s
  {
  }

  lemma {:induction false} ShiftForth(s: bv16)
    ensures (s << 1) & 1 == 0
    ensures (((s ^ 0xb400) << 1) | 1) & 1 != 0
    ensures s & 0x8000 == 0 ==> (s << 1) >> 1 == s
    ensures s & 0x8000 != 0 ==> ((((s ^ 0xb400) << 1) | 1) >> 1) ^ 0xb400 == s
  {
  }

  /** The step is a bijection. */
  lemma {:induction false} NextIsBijection(s: bv16)
    ensures Previous(Next(s)) == s && Next(Previous(s)) == s
  {
    NextCases(s);
    ShiftBack(s);
    ShiftForth(s);
    NextCases(Previous(s));
  }

  function Iterate(s: bv16, n: nat): bv16 {
    if n == 0 then s else Next(Iterate(s, n - 1))
  }

  class Random {
    var rngState: bv16

    constructor ()
      ensures rngState == 0x21
    {
      rngState := 0x21;
    }

    method Update()
      modifies this
      ensures rngState == Next(old(rngState)) && Previous(rngState) == old(rngState)
    {
      NextIsBijection(rngState);
      rngState := (rngState >> 1) ^ ((0 - (rngState & 1)) & 0xb400);
    }

    method Seed(seed: bv16)
      modifies this
      ensures rngState == seed
    {
      rngState := seed;
    }

    method GetByte() returns (b: bv16)
      modifies this
      ensures rngState == Next(old(rngState)) && b == rngState >> 8
    {
      Update();
      b := rngState >> 8;
    }

    method GetWord() returns (w: bv16)
      modifies this
      ensures rngState == Next(old(rngState)) == w
    {
      Update();
      w := rngState;
    }

    /** The n words drawn from a seed are the first n iterates of the step. */
    method Draw(n: nat) returns (words: seq<bv16>)
      modifies this
      ensures |words| == n && rngState == Iterate(old(rngState), n)
      ensures forall i :: 0 <= i < n ==> words[i] == Iterate(old(rngState), i + 1)
    {
      words := [];
      for i := 0 to n
        invariant |words| == i && rngState == Iterate(old(rngState), i)
        invariant forall j :: 0 <= j < i ==> words[j] == Iterate(old(rngState), j + 1)
      {
        var w := GetWord();
        words := words + [w];
      }
    }
  }
}
