/** The checksum over the first 64 words of the NVM: its sum must be 0xBABA modulo 2^16. */
module Checksum {
  import opened FlashPart

  const CHECKSUM_WORD: nat := 0x3F
  const NVM_SUM := Word(0xBABA)

  /** Addition and subtraction modulo 2^16. */
  function Plus(x: Word, y: Word): Word { Word(x.bits + y.bits) }

  function Minus(x: Word, y: Word): Word { Word(x.bits - y.bits) }

  /** Sum of the first n words, modulo 2^16. */
  function Sum(image: seq<Word>, n: nat): Word
    requires n <= |image|
  {
    if n == 0 then Word(0) else Plus(Sum(image, n - 1), image[n - 1])
  }

  predicate SumIsRight(image: seq<Word>)
    requires CHECKSUM_WORD < |image|
  {
    Sum(image, CHECKSUM_WORD + 1) == NVM_SUM
  }

  /** The image with its checksum word put right. */
  function WithChecksum(image: seq<Word>): (r: seq<Word>)
    requires CHECKSUM_WORD < |image|
    ensures |r| == |image|
  {
    image[CHECKSUM_WORD := Minus(NVM_SUM, Sum(image, CHECKSUM_WORD))]
  }

  lemma {:induction false} SumIgnoresLaterWords(image: seq<Word>, n: nat, at: nat, w: Word)
    requires n <= at < |image|
    ensures Sum(image[at := w], n) == Sum(image, n)
  {
    hide Plus;
    if n > 0 {
      SumIgnoresLaterWords(image, n - 1, at, w);
    }
  }

  lemma {:induction false} SumOfFew(image: seq<Word>, n: nat)
    requires 2 <= n <= |image| && image[0] == Word(0xFFFF) && forall i :: 2 <= i < n ==> image[i] == Word(0)
    ensures image[1] == Word(1) ==> Sum(image, n) == Word(0)
    ensures image[1] == Word(2) ==> Sum(image, n) == Word(1)
  {
    if n > 2 {
      SumOfFew(image, n - 1);
    } else {
      assert Sum(image, 2) == Plus(Plus(Word(0), image[0]), image[1]) by {
        assert Sum(image, 0) == Word(0) && Sum(image, 1) == Plus(Word(0), image[0]);
      }
    }
  }

  /** The sum wraps at sixteen bits: over 0xFFFF and 1 the checksum word must be 0xBABA, over 0xFFFF and 2
      one less. */
  lemma WrapsExactly(image: seq<Word>)
    requires |image| > 0x3F && image[0] == Word(0xFFFF) && forall i :: 2 <= i < 0x3F ==> image[i] == Word(0)
    ensures image[1] == Word(1) ==> (SumIsRight(image) <==> image[0x3F] == Word(0xBABA))
    ensures image[1] == Word(2) ==> (SumIsRight(image) <==> image[0x3F] == Word(0xBAB9))
  {
    SumOfFew(image, 0x3F);
  }

  lemma Complement(sum: Word)
    ensures Plus(sum, Minus(NVM_SUM, sum)) == NVM_SUM
  {
  }

  /** The repair always succeeds, whatever the other words are. */
  lemma ChecksumRepairs(image: seq<Word>)
    requires CHECKSUM_WORD < |image|
    ensures SumIsRight(WithChecksum(image))
  {
    hide Plus, Minus;
    var sum := Sum(image, CHECKSUM_WORD);
    SumIgnoresLaterWords(image, CHECKSUM_WORD, CHECKSUM_WORD, Minus(NVM_SUM, sum));
    Complement(sum);
  }
}
