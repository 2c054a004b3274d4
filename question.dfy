/** The letter badge of a question card, `String.fromCharCode(97 + index)`. */
module Question {

  /** The number of UTF-16 code units: `String.fromCharCode` reduces its
      argument modulo this (ECMAScript's ToUint16). */
  const CodeUnits := 0x1_0000

  /** The code unit of the badge for question `index`. Dafny's `%` is Euclidean,
      which is what ToUint16 does for negative arguments too. */
  function LabelCode(index: int): (u: nat)
    ensures u < CodeUnits
    ensures 0 <= index < CodeUnits - 97 ==> u == 97 + index
  {
    (97 + index) % CodeUnits
  }

  /** The badges of the page's six questions are the letters 'a' to 'f'. */
  lemma PageLabels()
    ensures forall i :: 0 <= i < 6 ==> LabelCode(i) == "abcdef"[i] as int
  {
  }

  /** Questions 0..25 get the lower-case letters 'a'..'z', in order. */
  lemma LowerCaseLetters(index: nat)
    requires index < 26
    ensures 'a' as int <= LabelCode(index) <= 'z' as int
    ensures LabelCode(index) - 'a' as int == index
  {
  }

  /** Indices within one span of 2^16 get distinct badges; indices a full span
      apart get the same one. */
  lemma LabelsDistinct(i: int, j: int)
    requires 0 <= i < CodeUnits && 0 <= j < CodeUnits
    ensures LabelCode(i) == LabelCode(j) <==> i == j
    ensures LabelCode(i + CodeUnits) == LabelCode(i)
  {
  }
}
