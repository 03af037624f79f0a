/**
 * Platform: the bit flags for the platforms an application supports, as
 * 64-bit PHP integers.
 */
module Platforms {
  const Windows: bv64 := 1 << 0
  const Linux: bv64 := 1 << 1
  const Mac: bv64 := 1 << 2
  const Vive: bv64 := 1 << 3
  const Oculus: bv64 := 1 << 4
  const Wmr: bv64 := 1 << 5

  /** The six flags in declaration order. */
  const Flags: seq<bv64> := [Windows, Linux, Mac, Vive, Oculus, Wmr]

  /** Exactly one bit is set. */
  predicate SingleBit(c: bv64) { c != 0 && c & (c - 1) == 0 }

  /** The declared values, one doubling per flag. */
  lemma FlagValues()
    ensures Windows == 1 && Linux == 2 && Mac == 4 && Vive == 8 && Oculus == 16 && Wmr == 32
  {
  }

  /** Every flag is a single bit, and no two flags share one. */
  lemma FlagsAreDisjointBits()
    ensures forall i :: 0 <= i < |Flags| ==> SingleBit(Flags[i])
    ensures forall i, j :: 0 <= i < |Flags| && 0 <= j < |Flags| && i != j ==> Flags[i] & Flags[j] == 0
  {
    assert Flags == [1, 2, 4, 8, 16, 32];
  }

  /** Together the flags fill the six low bits. */
  lemma AllFlags()
    ensures Windows | Linux | Mac | Vive | Oculus | Wmr == 63
  {
  }
}
