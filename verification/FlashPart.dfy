/** The flash part behind the controller, seen as one linear array of 16-bit words.

    The two banks are halves of this array.  Erasing sets bits, programming can only
    clear them, and a cycle either takes effect as a whole or not at all. */
module FlashPart {
  /** A stored 16-bit word. */
  datatype Word = Word(bits: bv16)

  const ERASED := Word(0xFFFF)

  function And(x: Word, y: Word): Word { Word(x.bits & y.bits) }

  function Or(x: Word, y: Word): Word { Word(x.bits | y.bits) }

  /** One erase or program cycle.  Byte addresses count bytes, word addresses count words; a dword
      is kept as the two words it programs. */
  datatype Cycle =
    | Erase(start: nat, words: nat)
    | ProgramByte(byteAddress: nat, byte: bv8)
    | ProgramDword(wordAddress: nat, low: Word, high: Word)

  function LowByte(w: Word): bv8 { (w.bits & 0xFF) as bv8 }

  function HighByte(w: Word): bv8 { (w.bits >> 8) as bv8 }

  function LowWord(d: bv32): Word { Word((d & 0xFFFF) as bv16) }

  function HighWord(d: bv32): Word { Word((d >> 16) as bv16) }

  function Pack(low: Word, high: Word): bv32 { ((high.bits as bv32) << 16) | (low.bits as bv32) }

  /** A word whose low, respectively high, byte is given and whose other byte is all ones. */
  function LowMask(byte: bv8): Word { Word(0xFF00 | (byte as bv16)) }

  function HighMask(byte: bv8): Word { Word(0x00FF | ((byte as bv16) << 8)) }

  /** The word a byte program cycle ANDs into the addressed word. */
  function ByteMask(byteAddress: nat, byte: bv8): Word {
    if byteAddress % 2 == 0 then LowMask(byte) else HighMask(byte)
  }

  function EraseRange(flash: seq<Word>, start: nat, words: nat): seq<Word> {
    seq(|flash|, i requires 0 <= i < |flash| => if start <= i < start + words then ERASED else flash[i])
  }

  function AndWord(flash: seq<Word>, address: nat, mask: Word): seq<Word> {
    if address < |flash| then flash[address := And(flash[address], mask)] else flash
  }

  /** The effect of one completed cycle. */
  function Apply(flash: seq<Word>, c: Cycle): (r: seq<Word>)
    ensures |r| == |flash|
  {
    match c
    case Erase(start, words) => EraseRange(flash, start, words)
    case ProgramByte(a, b) => AndWord(flash, a / 2, ByteMask(a, b))
    case ProgramDword(a, low, high) => AndWord(AndWord(flash, a, low), a + 1, high)
  }

  /** The flash after the given cycles, oldest first. */
  function Run(flash: seq<Word>, cycles: seq<Cycle>): (r: seq<Word>)
    ensures |r| == |flash|
  {
    if cycles == [] then flash
    else Apply(Run(flash, cycles[..|cycles| - 1]), cycles[|cycles| - 1])
  }

  lemma {:induction false} RunConcat(flash: seq<Word>, first: seq<Cycle>, second: seq<Cycle>)
    ensures Run(flash, first + second) == Run(Run(flash, first), second)
  {
    if second == [] {
      assert first + second == first;
    } else {
      var n := |second| - 1;
      RunConcat(flash, first, second[..n]);
      var all := first + second;
      assert all[..|all| - 1] == first + second[..n];
    }
  }

  lemma RunSnoc(flash: seq<Word>, cycles: seq<Cycle>, c: Cycle)
    ensures Run(flash, cycles + [c]) == Apply(Run(flash, cycles), c)
  {
    var all := cycles + [c];
    assert all[..|all| - 1] == cycles;
  }

  lemma RunTwo(flash: seq<Word>, cycles: seq<Cycle>, c: Cycle, d: Cycle)
    ensures Run(flash, cycles + [c, d]) == Apply(Apply(Run(flash, cycles), c), d)
  {
    hide Apply;
    var one := cycles + [c];
    assert cycles + [c, d] == one + [d];
    RunSnoc(flash, one, d);
    RunSnoc(flash, cycles, c);
  }

  /** Programming the two bytes of a word is one AND with that word. */
  lemma ByteMasksMakeWord(v: Word, w: Word)
    ensures And(And(v, LowMask(LowByte(w))), HighMask(HighByte(w))) == And(v, w)
  {
  }

  lemma PackedWords(low: Word, high: Word)
    ensures LowWord(Pack(low, high)) == low && HighWord(Pack(low, high)) == high
  {
  }

  /** Every bit of y is set in x. */
  predicate Within(y: Word, x: Word) { And(x, y) == y }

  predicate OnlyClears(before: seq<Word>, after: seq<Word>) {
    |before| == |after| && forall a :: 0 <= a < |before| ==> Within(after[a], before[a])
  }

  lemma AndIsWithin(x: Word, m: Word)
    ensures Within(x, x) && Within(And(x, m), x)
  {
  }

  lemma WithinTransitive(x: Word, y: Word, z: Word)
    requires Within(y, x) && Within(z, y)
    ensures Within(z, x)
  {
  }

  lemma AndWordClears(flash: seq<Word>, address: nat, mask: Word)
    ensures OnlyClears(flash, AndWord(flash, address, mask))
  {
    hide And;
    var after := AndWord(flash, address, mask);
    forall a | 0 <= a < |flash| ensures Within(after[a], flash[a]) {
      AndIsWithin(flash[a], mask);
    }
  }

  /** A program cycle of either width only clears bits. */
  lemma ProgramOnlyClears(flash: seq<Word>, c: Cycle)
    requires !c.Erase?
    ensures OnlyClears(flash, Apply(flash, c))
  {
    hide And;
    match c
    case ProgramByte(a, b) =>
      AndWordClears(flash, a / 2, ByteMask(a, b));
    case ProgramDword(a, low, high) =>
      var half := AndWord(flash, a, low);
      AndWordClears(flash, a, low);
      AndWordClears(half, a + 1, high);
      var after := Apply(flash, c);
      forall i | 0 <= i < |flash| ensures Within(after[i], flash[i]) {
        WithinTransitive(flash[i], half[i], after[i]);
      }
  }
}
