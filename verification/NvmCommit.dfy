/** What the commit of the shadow RAM does to the flash, as a list of cycles, and what every
    prefix of that list leaves behind.

    A crash, a power loss or a cycle that keeps failing all stop the commit after some prefix of
    its cycles, so a statement about all prefixes covers them all. */
module NvmCommit {
  import opened FlashPart

  const SHADOW_WORDS: nat := 2048
  const SIG_WORD: nat := 0x13
  const SIG_MASK := Word(0xC000)
  const SIGN := Word(0xBFFF)
  const UNSIGN := Word(0x00FF)

  datatype ShadowWord = ShadowWord(modified: bool, value: Word)

  /** Bank and erase-sector size in words. */
  datatype Geometry = Geometry(bankWords: nat, sectorWords: nat)

  predicate ValidGeometry(g: Geometry) { SHADOW_WORDS <= g.bankWords && g.sectorWords > 0 }

  predicate Fits(flash: seq<Word>, g: Geometry) { ValidGeometry(g) && |flash| == 2 * g.bankWords }

  function BankOffset(g: Geometry, bank: nat): nat { if bank == 0 then 0 else g.bankWords }

  function Other(bank: nat): nat { if bank == 0 then 1 else 0 }

  /** Where the sector starts that an address lies in: the part erases whole sectors. */
  function SectorStart(g: Geometry, address: nat): (r: nat)
    requires g.sectorWords > 0
    ensures r <= address < r + g.sectorWords
  {
    address - address % g.sectorWords
  }

  /** The erase of a bank reaches all words of its image and none of the other bank's. */
  predicate ErasesOnly(g: Geometry, bank: nat)
    requires ValidGeometry(g)
  {
    var start, other := SectorStart(g, BankOffset(g, bank)), BankOffset(g, Other(bank));
    && BankOffset(g, bank) + SHADOW_WORDS <= start + g.sectorWords
    && (start + g.sectorWords <= other || other + SHADOW_WORDS <= start)
  }

  /** Sectors and banks fit each other. */
  predicate SoundGeometry(g: Geometry) { ValidGeometry(g) && ErasesOnly(g, 0) && ErasesOnly(g, 1) }

  /** As they do when sectors hold an image and banks are made of whole sectors. */
  lemma AlignedIsSound(g: Geometry)
    requires SHADOW_WORDS <= g.sectorWords <= g.bankWords && g.bankWords % g.sectorWords == 0
    ensures SoundGeometry(g)
  {
  }

  // ------------------------------------------------------------ banks and views

  /** Bits 15:14 of the signature word are 10b. */
  predicate Signed(w: Word) { And(w, SIG_MASK) == Word(0x8000) }

  predicate BankSigned(flash: seq<Word>, g: Geometry, bank: nat)
    requires Fits(flash, g)
  {
    Signed(flash[BankOffset(g, bank) + SIG_WORD])
  }

  predicate SomeBankSigned(flash: seq<Word>, g: Geometry)
    requires Fits(flash, g)
  {
    BankSigned(flash, g, 0) || BankSigned(flash, g, 1)
  }

  /** The bank that signatures select; bank 0 when there is none. */
  function ActiveBank(flash: seq<Word>, g: Geometry): nat
    requires Fits(flash, g)
  {
    if BankSigned(flash, g, 0) then 0 else if BankSigned(flash, g, 1) then 1 else 0
  }

  function Image(flash: seq<Word>, g: Geometry, bank: nat): (r: seq<Word>)
    requires Fits(flash, g)
    ensures |r| == SHADOW_WORDS
  {
    flash[BankOffset(g, bank)..BankOffset(g, bank) + SHADOW_WORDS]
  }

  /** An image with the pending words of the shadow RAM laid over it. */
  function Overlay(image: seq<Word>, shadow: seq<ShadowWord>): (r: seq<Word>)
    requires |image| == |shadow| == SHADOW_WORDS
    ensures |r| == SHADOW_WORDS
  {
    seq(SHADOW_WORDS, i requires 0 <= i < SHADOW_WORDS => if shadow[i].modified then shadow[i].value else image[i])
  }

  /** What a reader of the NVM sees. */
  function View(flash: seq<Word>, g: Geometry, shadow: seq<ShadowWord>): (r: seq<Word>)
    requires Fits(flash, g) && |shadow| == SHADOW_WORDS
    ensures |r| == SHADOW_WORDS
  {
    Overlay(Image(flash, g, ActiveBank(flash, g)), shadow)
  }

  predicate Clean(shadow: seq<ShadowWord>) {
    |shadow| == SHADOW_WORDS && forall i :: 0 <= i < |shadow| ==> shadow[i] == ShadowWord(false, ERASED)
  }

  // ------------------------------------------------------------ the cycles of a commit

  /** The word programmed during the copy: the signature bits stay 11b until the end. */
  function FillWord(image: seq<Word>, i: nat): Word
    requires i < |image|
  {
    if i == SIG_WORD then Or(image[i], SIG_MASK) else image[i]
  }

  /** The image a finished commit publishes: the overlay with its signature forced to 10b. */
  function Published(image: seq<Word>): (r: seq<Word>)
    requires |image| == SHADOW_WORDS
    ensures |r| == SHADOW_WORDS
  {
    image[SIG_WORD := And(Or(image[SIG_WORD], SIG_MASK), SIGN)]
  }

  function WordCycles(address: nat, w: Word): seq<Cycle> {
    [ProgramByte(2 * address, LowByte(w)), ProgramByte(2 * address + 1, HighByte(w))]
  }

  /** Byte-wise copy of the first n words. */
  function ByteFill(image: seq<Word>, offset: nat, n: nat): (r: seq<Cycle>)
    requires n <= |image|
    ensures |r| == 2 * n
  {
    if n == 0 then [] else ByteFill(image, offset, n - 1) + WordCycles(offset + n - 1, FillWord(image, n - 1))
  }

  /** Dword-wise copy of the first n pairs of words. */
  function DwordFill(image: seq<Word>, offset: nat, n: nat): (r: seq<Cycle>)
    requires 2 * n <= |image|
    ensures |r| == n
  {
    if n == 0 then []
    else DwordFill(image, offset, n - 1)
         + [ProgramDword(offset + 2 * n - 2, FillWord(image, 2 * n - 2), FillWord(image, 2 * n - 1))]
  }

  /** The flash after the copy of n words onto the given contents. */
  function Filled(flash: seq<Word>, image: seq<Word>, offset: nat, n: nat): (r: seq<Word>)
    requires n <= |image|
    ensures |r| == |flash|
  {
    if n == 0 then flash else AndWord(Filled(flash, image, offset, n - 1), offset + n - 1, FillWord(image, n - 1))
  }

  /** The two closing cycles, computed from the flash as it stands after the copy. */
  function ByteClose(filled: seq<Word>, g: Geometry, bank: nat): seq<Cycle>
    requires Fits(filled, g)
  {
    var sig := BankOffset(g, Other(bank)) + SIG_WORD;
    [ProgramByte(2 * sig + 1, HighByte(And(filled[sig], SIGN))),
     ProgramByte(2 * (BankOffset(g, bank) + SIG_WORD) + 1, 0)]
  }

  function DwordClose(filled: seq<Word>, g: Geometry, bank: nat): seq<Cycle>
    requires Fits(filled, g)
  {
    var newSig := BankOffset(g, Other(bank)) + SIG_WORD;
    var oldSig := BankOffset(g, bank) + SIG_WORD;
    [ProgramDword(newSig - 1, filled[newSig - 1], And(filled[newSig], SIGN)),
     ProgramDword(oldSig - 1, filled[oldSig - 1], And(filled[oldSig], UNSIGN))]
  }

  /** The erase request: nothing when retries ran out, as the erase routine then still reports success. */
  function EraseCycles(g: Geometry, bank: nat, erased: bool): seq<Cycle>
    requires ValidGeometry(g)
  {
    if erased then [Erase(SectorStart(g, BankOffset(g, Other(bank))), g.sectorWords)] else []
  }

  /** Everything a commit needs to know: the flash it starts from, the pending words, the bank it
      takes for the active one and whether the erase took place. */
  datatype Commit = Commit(flash: seq<Word>, g: Geometry, shadow: seq<ShadowWord>, bank: nat, erased: bool)
  {
    predicate Valid() { Fits(flash, g) && |shadow| == SHADOW_WORDS && bank < 2 }

    function OldOffset(): nat { BankOffset(g, bank) }

    function NewOffset(): nat { BankOffset(g, Other(bank)) }

    /** What the commit is asked to store: the active bank with the pending words laid over it. */
    function Intended(): (r: seq<Word>)
      requires Valid()
      ensures |r| == SHADOW_WORDS
    {
      Overlay(Image(flash, g, bank), shadow)
    }

    function Base(): (r: seq<Word>)
      requires Valid()
      ensures |r| == |flash|
    {
      if erased then EraseRange(flash, SectorStart(g, NewOffset()), g.sectorWords) else flash
    }

    /** What the copy reads, once the erase is over. */
    function NewImage(): (r: seq<Word>)
      requires Valid()
      ensures |r| == SHADOW_WORDS
    {
      Overlay(Image(Base(), g, bank), shadow)
    }

    /** The bank to be written, as it is before the copy. */
    function Spare(): (r: seq<Word>)
      requires Valid()
      ensures |r| == SHADOW_WORDS
    {
      Image(Base(), g, Other(bank))
    }

    /** An erase, if it took place, was one that reaches the right words. */
    predicate Sound() { Valid() && (erased ==> SoundGeometry(g)) }

    /** The flash once n words are copied. */
    function Copied(n: nat): (r: seq<Word>)
      requires Valid() && n <= SHADOW_WORDS
      ensures |r| == |flash|
    {
      Filled(Base(), NewImage(), NewOffset(), n)
    }

    /** The flash once the new bank is signed, before the old one is invalidated. */
    function BothSigned(): (r: seq<Word>)
      requires Valid()
      ensures |r| == |flash|
    {
      AndWord(Copied(SHADOW_WORDS), NewOffset() + SIG_WORD, SIGN)
    }

    function Finished(): (r: seq<Word>)
      requires Valid()
      ensures |r| == |flash|
    {
      AndWord(BothSigned(), OldOffset() + SIG_WORD, UNSIGN)
    }

    /** Cycles issued by the byte-wise commit. */
    function ByteScript(): (r: seq<Cycle>)
      requires Valid()
      ensures |r| == (if erased then 1 else 0) + 2 * SHADOW_WORDS + 2
    {
      EraseCycles(g, bank, erased) + ByteFill(NewImage(), NewOffset(), SHADOW_WORDS)
      + ByteClose(Copied(SHADOW_WORDS), g, bank)
    }

    /** Cycles issued by the dword-wise commit. */
    function DwordScript(): (r: seq<Cycle>)
      requires Valid()
      ensures |r| == (if erased then 1 else 0) + SHADOW_WORDS / 2 + 2
    {
      EraseCycles(g, bank, erased) + DwordFill(NewImage(), NewOffset(), SHADOW_WORDS / 2)
      + DwordClose(Copied(SHADOW_WORDS), g, bank)
    }
  }

  // ------------------------------------------------------------ the copy, cycle by cycle

  lemma {:induction false} FilledAt(flash: seq<Word>, image: seq<Word>, offset: nat, n: nat, a: nat)
    requires n <= |image| && offset + n <= |flash| && a < |flash|
    ensures Filled(flash, image, offset, n)[a]
         == if offset <= a < offset + n then And(flash[a], FillWord(image, a - offset)) else flash[a]
  {
    if n > 0 {
      FilledAt(flash, image, offset, n - 1, a);
    }
  }

  /** Between the two bytes of a word. */
  function HalfFilled(flash: seq<Word>, image: seq<Word>, offset: nat, n: nat): (r: seq<Word>)
    requires n < |image|
    ensures |r| == |flash|
  {
    Apply(Filled(flash, image, offset, n), WordCycles(offset + n, FillWord(image, n))[0])
  }

  /** The two byte cycles of a word add up to one AND with it. */
  lemma WordCyclesApply(flash: seq<Word>, address: nat, w: Word)
    requires address < |flash|
    ensures Apply(Apply(flash, WordCycles(address, w)[0]), WordCycles(address, w)[1]) == AndWord(flash, address, w)
  {
    ByteMasksMakeWord(flash[address], w);
  }

  lemma {:induction false} ByteFillRuns(flash: seq<Word>, image: seq<Word>, offset: nat, n: nat)
    requires n <= |image| && offset + n <= |flash|
    ensures Run(flash, ByteFill(image, offset, n)) == Filled(flash, image, offset, n)
  {
    hide And, Or, LowByte, HighByte;
    if n > 0 {
      ByteFillRuns(flash, image, offset, n - 1);
      var w := WordCycles(offset + n - 1, FillWord(image, n - 1));
      RunTwo(flash, ByteFill(image, offset, n - 1), w[0], w[1]);
      assert w == [w[0], w[1]];
      WordCyclesApply(Filled(flash, image, offset, n - 1), offset + n - 1, FillWord(image, n - 1));
    }
  }

  /** Two single steps of the copy make one dword step. */
  lemma FilledTwice(flash: seq<Word>, image: seq<Word>, offset: nat, n: nat)
    requires n + 2 <= |image|
    ensures Filled(flash, image, offset, n + 2)
         == AndWord(AndWord(Filled(flash, image, offset, n), offset + n, FillWord(image, n)), offset + n + 1,
             FillWord(image, n + 1))
  {
  }

  lemma {:induction false} DwordFillRuns(flash: seq<Word>, image: seq<Word>, offset: nat, n: nat)
    requires 2 * n <= |image| && offset + 2 * n <= |flash|
    ensures Run(flash, DwordFill(image, offset, n)) == Filled(flash, image, offset, 2 * n)
  {
    hide And, Or, FillWord, AndWord;
    if n > 0 {
      var m := 2 * n - 2;
      DwordFillRuns(flash, image, offset, n - 1);
      RunSnoc(flash, DwordFill(image, offset, n - 1), ProgramDword(offset + m, FillWord(image, m), FillWord(image, m + 1)));
      FilledTwice(flash, image, offset, m);
    }
  }
}
