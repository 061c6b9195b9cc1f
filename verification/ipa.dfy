/**
 * IPA symbols both pipelines look at: the leading stress marks, the length mark
 * and the tie bar of the affricates.
 */
module Ipa {

  const PrimaryStress: char := '\U{02C8}'    // ˈ
  const SecondaryStress: char := '\U{02CC}'  // ˌ
  const LengthMark: char := '\U{02D0}'       // ː
  const TieBar: char := '\U{0361}'           // the combining double inverted breve of t͡ʃ

  /** The affricates t͡ʃ d͡ʒ t͡s d͡z, in the order both pipelines try them. */
  const Affricates: seq<string> :=
    ["t\U{0361}\U{0283}", "d\U{0361}\U{0292}", "t\U{0361}s", "d\U{0361}z"]

  predicate IsStressMark(c: char) {
    c == PrimaryStress || c == SecondaryStress
  }

  /** Length of the run matched by `/^[ˈˌ]+/` (zero when the word starts otherwise). */
  function StressRunLength(w: string): (n: nat)
    ensures n <= |w|
    ensures forall j :: 0 <= j < n ==> IsStressMark(w[j])
    ensures n < |w| ==> !IsStressMark(w[n])
  {
    if w != [] && IsStressMark(w[0]) then 1 + StressRunLength(w[1..]) else 0
  }

  /** `w.replace(/^[ˈˌ]+/, '')`. */
  function StripStress(w: string): (r: string)
    ensures |r| <= |w|
    ensures w == w[..StressRunLength(w)] + r
    ensures r != "" ==> !IsStressMark(r[0])
  {
    w[StressRunLength(w)..]
  }
}
