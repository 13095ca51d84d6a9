/**
 Texts and word sizes that several modules share.
 */
module Common {
  type Text = seq<char>
  type Byte = x: nat | x < 256

  const UINT32_MAX: nat := 0xFFFF_FFFF
  const UINT32: nat := 0x1_0000_0000
  const UINT64: nat := 0x1_0000_0000_0000_0000
  /** The length that stands for a whole string or memory. */
  const FULL_LENGTH: nat := 0xFFFF_FFFF_FFFF_FFFE

  function Min(a: int, b: int): int {
    if a < b then a else b
  }

  /** Two stretches of the same length do not overlap, as memcpy asks for. */
  predicate Separate(a: nat, b: nat, length: nat) {
    a + length <= b || b + length <= a
  }

  /** The part of a text from `offset` on, at most `length` characters of it. */
  function Section(text: Text, offset: nat, length: nat): Text {
    if |text| <= offset then ""
    else if length == FULL_LENGTH then text[offset..]
    else text[offset..Min(|text|, offset + length)]
  }

  /** Character by character: the section ends with its length or with the text. */
  lemma SectionMeans(text: Text, offset: nat, length: nat)
    ensures var part := Section(text, offset, length);
      && (forall k | 0 <= k < |part| :: offset + k < |text| && part[k] == text[offset + k])
      && |part| ==
         if |text| <= offset then 0
         else if length == 0xFFFF_FFFF_FFFF_FFFE || |text| < offset + length then |text| - offset
         else length
  {
  }

  lemma SliceOfSlice(text: Text, from: nat, to: nat, a: nat, b: nat)
    requires from <= to <= |text| && a <= b <= to - from
    ensures text[from..to][a..b] == text[from + a..from + b]
  {
    var part := text[from..to];
    assert forall k | a <= k < b :: part[k] == text[from + k];
  }
}
