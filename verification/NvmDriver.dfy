/** The driver's NVM routines: reads through the shadow RAM, writes into it, the two commits,
    and the checksum repair at start-up. */
module NvmDriver {
  import opened FlashPart
  import opened NvmCommit
  import opened NvmCrash
  import opened Checksum

  datatype Status = Ok | Error

  /** How often erase and program cycles take effect: on a write-protected part they never do. */
  datatype Effect = Never | Sometimes | Always

  const PROGRAM_RETRIES: nat := 100
  const ERASE_ATTEMPTS: nat := 10

  // ------------------------------------------------------------ 32-bit views of word pairs

  function SetLow(d: bv32, w: Word): bv32 { (d & 0xFFFF0000) | (w.bits as bv32) }

  function SetHigh(d: bv32, w: Word): bv32 { (d & 0x0000FFFF) | ((w.bits as bv32) << 16) }

  lemma SetHalves(d: bv32, w: Word)
    ensures LowWord(SetLow(d, w)) == w && HighWord(SetLow(d, w)) == HighWord(d)
    ensures LowWord(SetHigh(d, w)) == LowWord(d) && HighWord(SetHigh(d, w)) == w
  {
  }

  /** A dword of the old bank with the pending words laid over it. */
  function Merge(d: bv32, first: ShadowWord, second: ShadowWord): bv32 {
    var low := if first.modified then SetLow(d, first.value) else d;
    if second.modified then SetHigh(low, second.value) else low
  }

  lemma MergeOverlays(d: bv32, first: ShadowWord, second: ShadowWord)
    ensures LowWord(Merge(d, first, second)) == if first.modified then first.value else LowWord(d)
    ensures HighWord(Merge(d, first, second)) == if second.modified then second.value else HighWord(d)
  {
    hide LowWord, HighWord, SetLow, SetHigh;
    SetHalves(d, first.value);
    SetHalves(if first.modified then SetLow(d, first.value) else d, second.value);
  }

  lemma OpenDword(d: bv32)
    ensures LowWord(d | 0xC0000000) == LowWord(d)
    ensures HighWord(d | 0xC0000000) == Or(HighWord(d), SIG_MASK)
  {
  }

  lemma SignDword(d: bv32)
    ensures LowWord(d & 0xBFFFFFFF) == LowWord(d)
    ensures HighWord(d & 0xBFFFFFFF) == And(HighWord(d), SIGN)
  {
  }

  lemma UnsignDword(d: bv32)
    ensures LowWord(d & 0x00FFFFFF) == LowWord(d)
    ensures HighWord(d & 0x00FFFFFF) == And(HighWord(d), UNSIGN)
  {
  }

  /** The signature test as the driver makes it, on the byte alone. */
  lemma SignatureByte(w: Word)
    ensures HighByte(w) & 0xC0 == 0x80 <==> Signed(w)
  {
  }

  // ------------------------------------------------------------ reads that pair words

  /** What the dword-wise read delivers for word j of a request starting at offset: the second word
      of a pair is looked up by the modified flag of the first. */
  function SptWord(image: seq<Word>, shadow: seq<ShadowWord>, offset: nat, j: nat): Word
    requires |image| == |shadow| == SHADOW_WORDS && offset + j < SHADOW_WORDS
  {
    var flag := if j % 2 == 0 then shadow[offset + j].modified else shadow[offset + j - 1].modified;
    if flag then shadow[offset + j].value else image[offset + j]
  }

  lemma SptFirst(image: seq<Word>, shadow: seq<ShadowWord>, offset: nat, j: nat)
    requires |image| == |shadow| == SHADOW_WORDS && offset + j < SHADOW_WORDS && j % 2 == 0
    ensures SptWord(image, shadow, offset, j) == if shadow[offset + j].modified then shadow[offset + j].value else image[offset + j]
  {
  }

  lemma SptSecond(image: seq<Word>, shadow: seq<ShadowWord>, offset: nat, j: nat)
    requires |image| == |shadow| == SHADOW_WORDS && offset + j < SHADOW_WORDS && j % 2 == 1
    ensures SptWord(image, shadow, offset, j) == if shadow[offset + j - 1].modified then shadow[offset + j].value else image[offset + j]
  {
  }

  /** Words read so far by the dword-wise read. */
  predicate SptData(data: seq<Word>, image: seq<Word>, shadow: seq<ShadowWord>, offset: nat)
    requires |image| == |shadow| == SHADOW_WORDS
  {
    offset + |data| <= SHADOW_WORDS && forall j :: 0 <= j < |data| ==> data[j] == SptWord(image, shadow, offset, j)
  }

  lemma SptNothing(image: seq<Word>, shadow: seq<ShadowWord>, offset: nat)
    requires |image| == |shadow| == SHADOW_WORDS && offset <= SHADOW_WORDS
    ensures SptData([], image, shadow, offset)
  {
  }

  /** The words read, by the flags of their pairs. */
  lemma SptLiterally(data: seq<Word>, flash: seq<Word>, g: Geometry, bank: nat, shadow: seq<ShadowWord>, offset: nat)
    requires Fits(flash, g) && bank < 2 && |shadow| == SHADOW_WORDS && SptData(data, Image(flash, g, bank), shadow, offset)
    ensures offset + |data| <= SHADOW_WORDS
    ensures forall j :: 0 <= j < |data| ==> data[j] == SptWord(Image(flash, g, bank), shadow, offset, j)
    ensures forall j :: 0 <= j < |data| ==>
      data[j] == if shadow[offset + j - j % 2].modified then shadow[offset + j].value
                 else flash[(if bank == 0 then 0 else g.bankWords) + offset + j]
  {
    var image := Image(flash, g, bank);
    forall j | 0 <= j < |data|
      ensures data[j] == SptWord(image, shadow, offset, j) && (j % 2 == 0 || j - j % 2 == j - 1)
      ensures image[offset + j] == flash[(if bank == 0 then 0 else g.bankWords) + offset + j]
    {
    }
  }

  lemma SptMore(data: seq<Word>, w: Word, image: seq<Word>, shadow: seq<ShadowWord>, offset: nat)
    requires |image| == |shadow| == SHADOW_WORDS && SptData(data, image, shadow, offset)
    requires offset + |data| < SHADOW_WORDS && w == SptWord(image, shadow, offset, |data|)
    ensures SptData(data + [w], image, shadow, offset)
  {
    hide SptWord;
  }

  /** The flag and value test a caller of the dword-wise read would need: in each pair the two flags
      agree, or shadow and flash hold the same second word. */
  predicate PairsAgree(image: seq<Word>, shadow: seq<ShadowWord>, offset: nat, n: nat)
    requires |image| == |shadow| == SHADOW_WORDS && offset + n <= SHADOW_WORDS
  {
    forall j :: 0 <= j < n && j % 2 == 1 ==>
      shadow[offset + j - 1].modified == shadow[offset + j].modified || shadow[offset + j].value == image[offset + j]
  }

  /** A multi-word dword-wise read delivers the overlay exactly when its pairs agree. */
  lemma SptReadExactly(image: seq<Word>, shadow: seq<ShadowWord>, offset: nat, n: nat)
    requires |image| == |shadow| == SHADOW_WORDS && offset + n <= SHADOW_WORDS
    ensures (forall j :: 0 <= j < n ==> SptWord(image, shadow, offset, j) == Overlay(image, shadow)[offset + j])
       <==> PairsAgree(image, shadow, offset, n)
  {
    if PairsAgree(image, shadow, offset, n) {
    } else {
      var j :| 0 <= j < n && j % 2 == 1
        && !(shadow[offset + j - 1].modified == shadow[offset + j].modified || shadow[offset + j].value == image[offset + j]);
      assert SptWord(image, shadow, offset, j) != Overlay(image, shadow)[offset + j];
    }
  }

  /** A pending checksum, word 0x3F, behind a word that is not pending: the pair 0x3E, 0x3F is read
      from the flash alone and shows the checksum as it was. */
  lemma PendingChecksumIsMissed(image: seq<Word>, shadow: seq<ShadowWord>)
    requires image == seq(SHADOW_WORDS, _ => Word(0))
    requires shadow == seq(SHADOW_WORDS, i => ShadowWord(i == CHECKSUM_WORD, Word(0xBABA)))
    ensures SptWord(image, shadow, CHECKSUM_WORD - 1, 1) == Word(0)
    ensures Overlay(image, shadow)[CHECKSUM_WORD] == Word(0xBABA)
    ensures !PairsAgree(image, shadow, CHECKSUM_WORD - 1, 2)
  {
    var j := 1;
    assert !(shadow[CHECKSUM_WORD - 1 + j - 1].modified == shadow[CHECKSUM_WORD - 1 + j].modified
             || shadow[CHECKSUM_WORD - 1 + j].value == image[CHECKSUM_WORD - 1 + j]);
  }

  // ------------------------------------------------------------ steps of the scripts

  /** Position of a copied word in the byte-wise script. */
  lemma ByteScriptAt(c: Commit, i: nat)
    requires c.Valid() && i < SHADOW_WORDS
    ensures var at := Lead(c) + 2 * i;
      [c.ByteScript()[at], c.ByteScript()[at + 1]] == WordCycles(c.NewOffset() + i, FillWord(c.NewImage(), i))
  {
    hide FillWord, Overlay;
    var fill := ByteFill(c.NewImage(), c.NewOffset(), SHADOW_WORDS);
    ByteFillPrefix(c.NewImage(), c.NewOffset(), SHADOW_WORDS, i);
    assert fill[2 * i..2 * i + 2] == [fill[2 * i], fill[2 * i + 1]];
  }

  lemma {:induction false} DwordFillAt(image: seq<Word>, offset: nat, n: nat, p: nat)
    requires p < n && 2 * n <= |image|
    ensures DwordFill(image, offset, n)[p]
         == ProgramDword(offset + 2 * p, FillWord(image, 2 * p), FillWord(image, 2 * p + 1))
  {
    if p < n - 1 {
      DwordFillAt(image, offset, n - 1, p);
    }
  }

  /** Opens the signature of the dword that holds it. */
  function OpenSignature(d: bv32, i: nat): bv32 { if i == SIG_WORD - 1 then d | 0xC0000000 else d }

  lemma OpenSignatureFills(image: seq<Word>, i: nat, d: bv32)
    requires i + 1 < |image| && i != SIG_WORD && LowWord(d) == image[i] && HighWord(d) == image[i + 1]
    ensures LowWord(OpenSignature(d, i)) == FillWord(image, i) && HighWord(OpenSignature(d, i)) == FillWord(image, i + 1)
  {
    hide And, Or, LowWord, HighWord;
    OpenDword(d);
  }

  lemma MergeIsNewImage(c: Commit, i: nat, d: bv32)
    requires c.Valid() && i + 1 < SHADOW_WORDS
    requires LowWord(d) == c.Base()[c.OldOffset() + i] && HighWord(d) == c.Base()[c.OldOffset() + i + 1]
    ensures LowWord(Merge(d, c.shadow[i], c.shadow[i + 1])) == c.NewImage()[i]
    ensures HighWord(Merge(d, c.shadow[i], c.shadow[i + 1])) == c.NewImage()[i + 1]
  {
    hide And, Or, LowWord, HighWord, Merge, Commit.NewImage, Commit.Base;
    NewImageAt(c, i);
    NewImageAt(c, i + 1);
    MergeOverlays(d, c.shadow[i], c.shadow[i + 1]);
  }

  lemma NewImageAt(c: Commit, i: nat)
    requires c.Valid() && i < SHADOW_WORDS
    ensures c.NewImage()[i] == if c.shadow[i].modified then c.shadow[i].value else c.Base()[c.OldOffset() + i]
  {
  }

  /** One more cycle of a script. */
  lemma ScriptStep(flash: seq<Word>, script: seq<Cycle>, k: nat)
    requires k < |script|
    ensures Run(flash, script[..k + 1]) == Apply(Run(flash, script[..k]), script[k])
  {
    assert script[..k + 1] == script[..k] + [script[k]];
    RunSnoc(flash, script[..k], script[k]);
  }

  /** A byte-wise commit that has copied n words. */
  lemma ByteCopyAt(c: Commit, n: nat, a: nat)
    requires c.Valid() && n <= SHADOW_WORDS && a < c.g.bankWords
    ensures Run(c.flash, c.ByteScript()[..Lead(c) + 2 * n]) == c.Copied(n)
    ensures c.Copied(n)[c.OldOffset() + a] == c.Base()[c.OldOffset() + a]
  {
    hide And, Or, FillWord, Overlay, AndWord;
    BytePrefix(c, Lead(c) + 2 * n);
    assert (2 * n) / 2 == n && (2 * n) % 2 == 0;
    FilledAt(c.Base(), c.NewImage(), c.NewOffset(), n, c.OldOffset() + a);
  }

  /** A dword-wise commit that has copied n words. */
  lemma DwordCopyAt(c: Commit, n: nat, a: nat)
    requires c.Valid() && n <= SHADOW_WORDS && n % 2 == 0 && a < c.g.bankWords
    ensures Run(c.flash, c.DwordScript()[..Lead(c) + n / 2]) == c.Copied(n)
    ensures c.Copied(n)[c.OldOffset() + a] == c.Base()[c.OldOffset() + a]
  {
    hide And, Or, FillWord, Overlay, AndWord;
    DwordCopyPrefix(c, n / 2);
    FilledAt(c.Base(), c.NewImage(), c.NewOffset(), n, c.OldOffset() + a);
  }

  /** Position of a copied pair in the dword-wise script. */
  lemma DwordScriptAt(c: Commit, p: nat)
    requires c.Valid() && p < SHADOW_WORDS / 2
    ensures c.DwordScript()[Lead(c) + p]
         == ProgramDword(c.NewOffset() + 2 * p, FillWord(c.NewImage(), 2 * p), FillWord(c.NewImage(), 2 * p + 1))
  {
    hide FillWord, Overlay;
    DwordFillAt(c.NewImage(), c.NewOffset(), SHADOW_WORDS / 2, p);
  }

  lemma RunNothing(flash: seq<Word>)
    ensures Run(flash, []) == flash
  {
  }

  /** Signing the new bank leaves the signature words of the old one. */
  lemma OldSignatureKept(c: Commit)
    requires c.Valid()
    ensures var at := c.OldOffset() + SIG_WORD;
      c.BothSigned()[at] == c.Copied(SHADOW_WORDS)[at] && c.BothSigned()[at - 1] == c.Copied(SHADOW_WORDS)[at - 1]
  {
  }

  class Nvm {
    const g: Geometry
    const dwordOnly: bool          // the controller generation that knows 32-bit accesses only
    const readsWork: bool          // when set, no read cycle fails
    const erasesResolve: bool      // when set, no erase is answered by errors until the retries run out
    const cycles: Effect           // when not set, no erase or program cycle takes effect
    const validWord: nat           // word and mask of the valid-checksum bit
    const validMask: Word
    const shadow: array<ShadowWord>
    var words: seq<Word>           // the flash part
    ghost var log: seq<Cycle>      // erase and program cycles that took effect, oldest first
    ghost var tries: nat           // erase and program cycles tried

    ghost predicate Valid()
      reads this
    {
      shadow.Length == SHADOW_WORDS && Fits(words, g)
    }

    ghost function CurrentView(): (r: seq<Word>)
      requires Valid()
      reads this, shadow
      ensures |r| == SHADOW_WORDS
    {
      View(words, g, shadow[..])
    }

    constructor (g: Geometry, dwordOnly: bool, readsWork: bool, erasesResolve: bool, cycles: Effect,
                 validWord: nat, validMask: Word, words: seq<Word>)
      requires Fits(words, g)
      ensures Valid() && fresh(shadow) && Clean(shadow[..]) && this.words == words && this.g == g
      ensures this.dwordOnly == dwordOnly && this.readsWork == readsWork && this.erasesResolve == erasesResolve
      ensures this.cycles == cycles && this.validWord == validWord && this.validMask == validMask
    {
      this.g, this.dwordOnly, this.readsWork, this.erasesResolve := g, dwordOnly, readsWork, erasesResolve;
      this.cycles, this.validWord, this.validMask := cycles, validWord, validMask;
      this.words := words;
      log, tries := [], 0;
      shadow := new ShadowWord[SHADOW_WORDS](_ => ShadowWord(false, ERASED));
    }

    // ---------------------------------------------------------- flash cycles

    /** A read cycle of one word. */
    method ReadFlashWord(address: nat) returns (st: Status, data: Word)
      requires Valid() && address < |words|
      ensures st.Ok? ==> data == words[address]
      ensures readsWork ==> st.Ok?
    {
      var fails: bool := *;
      if fails && !readsWork {
        return Error, ERASED;
      }
      return Ok, words[address];
    }

    /** A read cycle of two adjacent words. */
    method ReadFlashDword(address: nat) returns (st: Status, data: bv32)
      requires Valid() && address + 1 < |words|
      ensures st.Ok? ==> data == Pack(words[address], words[address + 1])
      ensures readsWork ==> st.Ok?
    {
      var fails: bool := *;
      if fails && !readsWork {
        return Error, 0;
      }
      return Ok, Pack(words[address], words[address + 1]);
    }

    /** One erase or program cycle: it takes effect as a whole, or fails without effect. */
    method Attempt(c: Cycle) returns (st: Status)
      requires Valid()
      modifies this`words, this`log, this`tries
      ensures Valid()
      ensures st.Ok? ==> words == Apply(old(words), c) && log == old(log) + [c]
      ensures st.Error? ==> words == old(words) && log == old(log)
      ensures tries == old(tries) + 1 && (cycles.Never? ==> st.Error?) && (cycles.Always? ==> st.Ok?)
    {
      var fails: bool := *;
      tries := tries + 1;
      if cycles.Never? || (cycles.Sometimes? && fails) {
        return Error;
      }
      words := Apply(words, c);
      log := log + [c];
      return Ok;
    }

    /** A program cycle with its retries: one try and up to a hundred more. */
    method RetryProgram(c: Cycle) returns (st: Status)
      requires Valid()
      modifies this`words, this`log, this`tries
      ensures Valid()
      ensures st.Ok? ==> words == Apply(old(words), c) && log == old(log) + [c]
      ensures st.Error? ==> words == old(words) && log == old(log) && tries == old(tries) + 1 + PROGRAM_RETRIES
      ensures (cycles.Never? ==> st.Error?) && (cycles.Always? ==> st.Ok?)
    {
      st := Attempt(c);
      if st.Ok? {
        return;
      }
      var retries := 0;
      while retries < PROGRAM_RETRIES
        invariant Valid() && words == old(words) && log == old(log) && !cycles.Always?
        invariant retries <= PROGRAM_RETRIES && tries == old(tries) + 1 + retries
      {
        st := Attempt(c);
        if st.Ok? {
          return;
        }
        retries := retries + 1;
      }
      return Error;
    }

    /** Erases a bank.  When the retries run out the routine still reports success, although nothing
        was erased; the ghost result tells the two apart. */
    method EraseBank(bank: nat) returns (st: Status, ghost erased: bool)
      requires Valid()
      modifies this`words, this`log, this`tries
      ensures Valid()
      ensures erased ==> !cycles.Never? && st.Ok? && words == Apply(old(words), Erase(SectorStart(g, BankOffset(g, bank)), g.sectorWords))
                         && log == old(log) + [Erase(SectorStart(g, BankOffset(g, bank)), g.sectorWords)]
      ensures !erased ==> words == old(words) && log == old(log)
      ensures st.Ok? && !erased ==> !erasesResolve && tries == old(tries) + ERASE_ATTEMPTS
      ensures cycles.Always? ==> erased
    {
      erased := false;
      var count := 0;
      while true
        invariant Valid() && !erased && words == old(words) && log == old(log) && count < ERASE_ATTEMPTS
        invariant tries == old(tries) + count
        decreases ERASE_ATTEMPTS - count
      {
        var busy: bool := *;
        if busy && !cycles.Always? {
          return Error, false;
        }
        st := Attempt(Erase(SectorStart(g, BankOffset(g, bank)), g.sectorWords));
        if st.Ok? {
          return Ok, true;
        }
        var timedOut: bool := *;
        if timedOut || erasesResolve {
          return Error, false;
        }
        count := count + 1;
        if count >= ERASE_ATTEMPTS {
          break;
        }
      }
      st := Ok;
    }

    // ---------------------------------------------------------- bank detection

    /** One signature byte, by the access the controller offers. */
    method ReadSignature(bank: nat) returns (st: Status, byte: bv8)
      requires Valid() && bank < 2
      ensures st.Ok? ==> (byte & 0xC0 == 0x80 <==> BankSigned(words, g, bank))
      ensures readsWork ==> st.Ok?
    {
      var address := BankOffset(g, bank) + SIG_WORD;
      SignatureByte(words[address]);
      if dwordOnly {
        var data;
        st, data := ReadFlashDword(address);
        PackedWords(words[address], words[address + 1]);
        byte := HighByte(LowWord(data));
      } else {
        var data;
        st, data := ReadFlashWord(address);
        byte := HighByte(data);
      }
    }

    /** Finds the signed bank.  A failed read and a flash without signatures both leave bank 0. */
    method DetectBank() returns (st: Status, bank: nat)
      requires Valid()
      ensures bank == 0 || bank == ActiveBank(words, g)
      ensures st.Ok? ==> bank == ActiveBank(words, g) && BankSigned(words, g, bank)
      ensures readsWork ==> bank == ActiveBank(words, g) && (st.Ok? <==> SomeBankSigned(words, g))
      ensures readsWork ==>
        var (first, second) := (Signed(words[0x13]), Signed(words[g.bankWords + 0x13]));
        bank == (if !first && second then 1 else 0) && (st.Ok? <==> first || second)
      ensures bank < 2
    {
      bank := 0;
      var sig;
      st, sig := ReadSignature(0);
      if st.Error? {
        return;
      }
      if sig & 0xC0 == 0x80 {
        return;
      }
      st, sig := ReadSignature(1);
      if st.Error? {
        return;
      }
      if sig & 0xC0 == 0x80 {
        bank := 1;
        return;
      }
      st := Error;
    }

    // ---------------------------------------------------------- reads and writes of the NVM

    predicate InBounds(offset: nat, n: nat) { offset < SHADOW_WORDS && n <= SHADOW_WORDS - offset && n != 0 }

    /** Word-wise read: the shadow RAM laid over the bank that detection chose. */
    method ReadWords(offset: nat, n: nat) returns (st: Status, data: seq<Word>, ghost bank: nat)
      requires Valid()
      ensures bank == 0 || bank == ActiveBank(words, g)
      ensures !InBounds(offset, n) ==> st.Error?
      ensures st.Ok? ==> data == Overlay(Image(words, g, bank), shadow[..])[offset..offset + n]
      ensures readsWork ==> bank == ActiveBank(words, g) && (InBounds(offset, n) ==> st.Ok?)
      ensures st.Ok? ==> n > 0 && offset + n <= 2048 && |data| == n && forall j :: 0 <= j < n ==>
        data[j] == if shadow[offset + j].modified then shadow[offset + j].value
                   else words[(if bank == 0 then 0 else g.bankWords) + offset + j]
    {
      data, bank := [], ActiveBank(words, g);
      if !InBounds(offset, n) {
        return Error, [], bank;
      }
      var found;
      st, found := DetectBank();
      if st.Error? {
        found := 0;
      }
      bank := found;
      var start := BankOffset(g, found) + offset;
      st := Ok;
      var i := 0;
      while i < n
        invariant i <= n && |data| == i && st.Ok?
        invariant forall j :: 0 <= j < i ==> data[j] == Overlay(Image(words, g, bank), shadow[..])[offset + j]
      {
        if shadow[offset + i].modified {
          data := data + [shadow[offset + i].value];
        } else {
          var w;
          st, w := ReadFlashWord(start + i);
          if st.Error? {
            return;
          }
          data := data + [w];
        }
        i := i + 1;
      }
    }

    /** A pair of words for the dword-wise read: both by the modified flag of the first. */
    method ReadPair(at: nat, start: nat, ghost bank: nat) returns (st: Status, first: Word, second: Word)
      requires Valid() && bank < 2 && at + 1 < SHADOW_WORDS && start == BankOffset(g, bank) + at
      ensures st.Ok? ==> first == if shadow[at].modified then shadow[at].value else words[start]
      ensures st.Ok? ==> second == if shadow[at].modified then shadow[at + 1].value else words[start + 1]
      ensures readsWork ==> st.Ok?
    {
      hide Pack, LowWord, HighWord;
      st, first, second := Ok, ERASED, ERASED;
      var d: bv32 := 0;
      if !shadow[at].modified || !shadow[at + 1].modified {
        st, d := ReadFlashDword(start);
        if st.Error? {
          return;
        }
        PackedWords(words[start], words[start + 1]);
      }
      first := if shadow[at].modified then shadow[at].value else LowWord(d);
      second := if shadow[at].modified then shadow[at + 1].value else HighWord(d);
    }

    /** A lone last word for the dword-wise read, picked out of its dword. */
    method ReadLone(at: nat, start: nat, ghost bank: nat) returns (st: Status, word: Word)
      requires Valid() && bank < 2 && at < SHADOW_WORDS && start == BankOffset(g, bank) + at
      ensures st.Ok? ==> word == if shadow[at].modified then shadow[at].value else words[start]
      ensures readsWork ==> st.Ok?
    {
      hide Pack, LowWord, HighWord;
      if shadow[at].modified {
        return Ok, shadow[at].value;
      }
      var from := start - start % 2;
      assert from + 1 < |words|;
      var d;
      st, d := ReadFlashDword(from);
      if st.Error? {
        return st, ERASED;
      }
      PackedWords(words[from], words[from + 1]);
      word := if start % 2 == 0 then LowWord(d) else HighWord(d);
    }

    /** The next pair of a dword-wise read, or its lone last word. */
    method ReadRound(data: seq<Word>, offset: nat, n: nat, start: nat, ghost bank: nat) returns (st: Status, more: seq<Word>)
      requires Valid() && bank < 2 && offset + n <= SHADOW_WORDS && start == BankOffset(g, bank) + offset
      requires |data| < n && |data| % 2 == 0 && SptData(data, Image(words, g, bank), shadow[..], offset)
      ensures st.Ok? ==> |more| == (if |data| + 1 < n then |data| + 2 else n) && SptData(more, Image(words, g, bank), shadow[..], offset)
      ensures readsWork ==> st.Ok?
    {
      hide SptWord, SptData;
      ghost var image := Image(words, g, bank);
      var i := |data|;
      more := data;
      SptFirst(image, shadow[..], offset, i);
      assert words[start + i] == image[offset + i];
      if n - i == 1 {
        var w;
        st, w := ReadLone(offset + i, start + i, bank);
        if st.Ok? {
          SptMore(data, w, image, shadow[..], offset);
          more := data + [w];
        }
      } else {
        SptSecond(image, shadow[..], offset, i + 1);
        assert words[start + i + 1] == image[offset + (i + 1)];
        var first, second;
        st, first, second := ReadPair(offset + i, start + i, bank);
        if st.Ok? {
          SptMore(data, first, image, shadow[..], offset);
          SptMore(data + [first], second, image, shadow[..], offset);
          more := data + [first] + [second];
        }
      }
    }

    /** Dword-wise read, two words a time. */
    method ReadWordsSpt(offset: nat, n: nat) returns (st: Status, data: seq<Word>, ghost bank: nat)
      requires Valid()
      ensures bank == 0 || bank == ActiveBank(words, g)
      ensures !InBounds(offset, n) ==> st.Error?
      ensures st.Ok? ==> |data| == n && forall j :: 0 <= j < n ==> data[j] == SptWord(Image(words, g, bank), shadow[..], offset, j)
      ensures readsWork ==> bank == ActiveBank(words, g) && (InBounds(offset, n) ==> st.Ok?)
      ensures st.Ok? ==> n > 0 && offset + n <= 2048 && |data| == n && forall j :: 0 <= j < n ==>
        data[j] == if shadow[offset + j - j % 2].modified then shadow[offset + j].value
                   else words[(if bank == 0 then 0 else g.bankWords) + offset + j]
    {
      hide Signed, SptWord, SptData, BankSigned;
      data, bank := [], ActiveBank(words, g);
      if !InBounds(offset, n) {
        return Error, [], bank;
      }
      var found;
      st, found := DetectBank();
      if st.Error? {
        found := 0;
      }
      bank := found;
      ghost var image := Image(words, g, bank);
      var start := BankOffset(g, found) + offset;
      st := Ok;
      var i := 0;
      SptNothing(image, shadow[..], offset);
      while i < n
        invariant st.Ok? && i % 2 == 0 && i <= n + 1 && |data| == if i <= n then i else n
        invariant SptData(data, image, shadow[..], offset)
      {
        st, data := ReadRound(data, offset, n, start, bank);
        if st.Error? {
          return;
        }
        i := i + 2;
      }
      SptLiterally(data, words, g, bank, shadow[..], offset);
    }

    /** The one-word read both access modes agree on. */
    method ReadWord(offset: nat) returns (st: Status, data: Word)
      requires Valid()
      ensures offset >= SHADOW_WORDS ==> st.Error?
      ensures readsWork && offset < SHADOW_WORDS ==> st.Ok? && data == CurrentView()[offset]
    {
      var ws;
      ghost var bank;
      if dwordOnly {
        st, ws, bank := ReadWordsSpt(offset, 1);
        if st.Ok? {
          SptReadExactly(Image(words, g, bank), shadow[..], offset, 1);
        }
      } else {
        st, ws, bank := ReadWords(offset, 1);
      }
      data := if st.Ok? then ws[0] else ERASED;
    }

    /** Writes only mark entries of the shadow RAM. */
    method WriteWords(offset: nat, data: seq<Word>) returns (st: Status)
      requires Valid()
      modifies shadow
      ensures st.Ok? <==> InBounds(offset, |data|)
      ensures st.Ok? <==> |data| > 0 && offset + |data| <= 2048
      ensures st.Error? ==> shadow[..] == old(shadow[..])
      ensures st.Ok? ==> shadow[..] == old(shadow[..])[..offset]
                                       + seq(|data|, i requires 0 <= i < |data| => ShadowWord(true, data[i]))
                                       + old(shadow[..])[offset + |data|..]
    {
      if !InBounds(offset, |data|) {
        return Error;
      }
      var i := 0;
      while i < |data|
        invariant i <= |data|
        invariant forall j :: 0 <= j < SHADOW_WORDS ==>
          shadow[j] == if offset <= j < offset + i then ShadowWord(true, data[j - offset]) else old(shadow[j])
      {
        shadow[offset + i] := ShadowWord(true, data[i]);
        i := i + 1;
      }
      return Ok;
    }

    // ---------------------------------------------------------- the commits

    /** Empties the shadow RAM. */
    method ClearShadow()
      requires Valid()
      modifies shadow
      ensures Clean(shadow[..])
    {
      var i := 0;
      while i < SHADOW_WORDS
        invariant i <= SHADOW_WORDS
        invariant forall j :: 0 <= j < i ==> shadow[j] == ShadowWord(false, ERASED)
      {
        shadow[i] := ShadowWord(false, ERASED);
        i := i + 1;
      }
    }

    /** Chooses the bank to replace and erases its partner.  Afterwards c describes the commit. */
    method BeginCommit() returns (st: Status, bank: nat, ghost c: Commit)
      requires Valid()
      modifies this`words, this`log, this`tries
      ensures Valid() && bank < 2
      ensures c.Valid() && c.flash == old(words) && c.g == g && c.shadow == shadow[..] && c.bank == bank
      ensures bank == 0 || bank == ActiveBank(old(words), g)
      ensures readsWork ==> bank == ActiveBank(old(words), g)
      ensures st.Ok? ==> words == c.Base() && log == old(log) + EraseCycles(g, bank, c.erased)
      ensures st.Error? ==> words == old(words) && log == old(log) && c.erased
      ensures erasesResolve ==> c.erased
      ensures (cycles.Never? && st.Ok? ==> !c.erased) && (cycles.Always? ==> st.Ok? && c.erased)
    {
      hide SectorStart;
      st, bank := DetectBank();
      if st.Error? {
        bank := 0;
      }
      ghost var erased;
      st, erased := EraseBank(Other(bank));
      c := Commit(old(words), g, shadow[..], bank, erased || st.Error?);
    }

    /** A commit that started from the given flash and log has performed the first k cycles of its script. */
    ghost predicate At(flash: seq<Word>, before: seq<Cycle>, script: seq<Cycle>, k: nat)
      reads this
    {
      k <= |script| && words == Run(flash, script[..k]) && log == before + script[..k]
    }

    /** Performs the next cycle of a script. */
    method Perform(next: Cycle, ghost flash: seq<Word>, ghost before: seq<Cycle>, ghost script: seq<Cycle>, ghost k: nat)
      returns (st: Status)
      requires Valid() && At(flash, before, script, k) && k < |script| && script[k] == next
      modifies this`words, this`log, this`tries
      ensures Valid()
      ensures At(flash, before, script, if st.Ok? then k + 1 else k)
      ensures (cycles.Never? ==> st.Error?) && (cycles.Always? ==> st.Ok?)
    {
      hide Apply;
      st := RetryProgram(next);
      ScriptStep(flash, script, k);
      assert script[..k + 1] == script[..k] + [next];
    }

    /** Copies word i of the commit, byte by byte. */
    method CopyWord(i: nat, bank: nat, ghost c: Commit, ghost before: seq<Cycle>) returns (st: Status, ghost k: nat)
      requires Valid() && c.Valid() && c.g == g && c.bank == bank && c.shadow == shadow[..] && i < SHADOW_WORDS
      requires At(c.flash, before, c.ByteScript(), Lead(c) + 2 * i)
      modifies this`words, this`log, this`tries
      ensures Valid() && At(c.flash, before, c.ByteScript(), k)
      ensures st.Ok? ==> k == Lead(c) + 2 * i + 2
      ensures st.Error? ==> k < Lead(c) + 2 * i + 2
      ensures cycles.Never? ==> st.Error? && k == Lead(c) + 2 * i
      ensures cycles.Always? && readsWork ==> st.Ok?
    {
      hide And, Or, LowByte, HighByte, Run, Filled, Commit.ByteScript, Commit.Copied;
      k := Lead(c) + 2 * i;
      ByteCopyAt(c, i, i);
      st := Ok;
      var data;
      if shadow[i].modified {
        data := shadow[i].value;
      } else {
        st, data := ReadFlashWord(i + BankOffset(g, bank));
        if st.Error? {
          return;
        }
      }
      if i == SIG_WORD {
        data := Or(data, SIG_MASK);
      }
      ByteScriptAt(c, i);
      var address := 2 * (i + BankOffset(g, Other(bank)));
      st := Perform(ProgramByte(address, LowByte(data)), c.flash, before, c.ByteScript(), k);
      if st.Error? {
        return;
      }
      k := k + 1;
      st := Perform(ProgramByte(address + 1, HighByte(data)), c.flash, before, c.ByteScript(), k);
      if st.Error? {
        return;
      }
      k := k + 1;
    }

    /** Signs the new bank and invalidates the old one, byte by byte. */
    method CloseBytes(bank: nat, ghost c: Commit, ghost before: seq<Cycle>) returns (st: Status, ghost k: nat)
      requires Valid() && c.Valid() && c.g == g && c.bank == bank
      requires At(c.flash, before, c.ByteScript(), Lead(c) + 2 * SHADOW_WORDS)
      modifies this`words, this`log, this`tries
      ensures Valid() && At(c.flash, before, c.ByteScript(), k)
      ensures (st.Ok? <==> k == |c.ByteScript()|) && (cycles.Always? && readsWork ==> st.Ok?)
    {
      hide And, Or, FillWord, Overlay;
      k := Lead(c) + 2 * SHADOW_WORDS;
      ByteCopyAt(c, SHADOW_WORDS, 0);
      var sig;
      st, sig := ReadFlashWord(BankOffset(g, Other(bank)) + SIG_WORD);
      if st.Error? {
        return;
      }
      sig := And(sig, SIGN);
      st := Perform(ProgramByte((BankOffset(g, Other(bank)) + SIG_WORD) * 2 + 1, HighByte(sig)), c.flash, before,
          c.ByteScript(), k);
      if st.Error? {
        return;
      }
      k := k + 1;
      st := Perform(ProgramByte((BankOffset(g, bank) + SIG_WORD) * 2 + 1, 0), c.flash, before, c.ByteScript(), k);
      if st.Error? {
        return;
      }
      k := k + 1;
    }

    /** The byte-wise commit of the shadow RAM.  It performs a prefix of its script, all of it on
        success; the shadow RAM is emptied on success and kept otherwise. */
    method CommitBytes() returns (st: Status, ghost c: Commit, ghost done: seq<Cycle>)
      requires Valid()
      modifies this`words, this`log, this`tries, shadow
      ensures Valid()
      ensures c.Valid() && c.flash == old(words) && c.g == g && c.shadow == old(shadow[..])
      ensures c.bank == 0 || c.bank == ActiveBank(old(words), g)
      ensures readsWork ==> c.bank == ActiveBank(old(words), g)
      ensures erasesResolve ==> c.erased
      ensures done <= c.ByteScript() && words == Run(old(words), done) && log == old(log) + done
      ensures st.Ok? ==> done == c.ByteScript() && Clean(shadow[..])
      ensures st.Error? ==> |done| < |c.ByteScript()| && shadow[..] == old(shadow[..])
      ensures (cycles.Never? ==> st.Error? && done == []) && (cycles.Always? && readsWork ==> st.Ok?)
    {
      hide Run, Apply, And, Or, Overlay, FillWord;
      var bank;
      st, bank, c := BeginCommit();
      done := [];
      LeadRuns(c);
      RunNothing(old(words));
      if st.Error? {
        return;
      }
      ghost var k := Lead(c);
      assert c.ByteScript()[..k] == EraseCycles(g, bank, c.erased);
      var i := 0;
      while i < SHADOW_WORDS
        invariant i <= SHADOW_WORDS && Valid() && k == Lead(c) + 2 * i
        invariant At(c.flash, old(log), c.ByteScript(), k)
        invariant shadow[..] == old(shadow[..]) && (cycles.Never? ==> i == 0 && !c.erased)
      {
        st, k := CopyWord(i, bank, c, old(log));
        if st.Error? {
          done := c.ByteScript()[..k];
          return;
        }
        i := i + 1;
      }
      st, k := CloseBytes(bank, c, old(log));
      done := c.ByteScript()[..k];
      if st.Ok? {
        ClearShadow();
      }
    }

    /** Copies words i and i + 1 of the commit as one dword. */
    method CopyDword(i: nat, bank: nat, ghost c: Commit, ghost before: seq<Cycle>) returns (st: Status)
      requires Valid() && c.Valid() && c.g == g && c.bank == bank && c.shadow == shadow[..] && i < SHADOW_WORDS
          && i % 2 == 0
      requires At(c.flash, before, c.DwordScript(), Lead(c) + i / 2)
      modifies this`words, this`log, this`tries
      ensures Valid() && At(c.flash, before, c.DwordScript(), Lead(c) + i / 2 + if st.Ok? then 1 else 0)
      ensures (cycles.Never? ==> st.Error?) && (cycles.Always? && readsWork ==> st.Ok?)
    {
      hide And, Or, LowWord, HighWord, Merge, OpenSignature, Pack, Run, Filled, FillWord, Overlay,
          Commit.DwordScript, Commit.Copied, Commit.NewImage;
      var oldOffset := BankOffset(g, bank);
      DwordCopyAt(c, i, i);
      DwordCopyAt(c, i, i + 1);
      var d;
      st, d := ReadFlashDword(i + oldOffset);
      PackedWords(words[i + oldOffset], words[i + oldOffset + 1]);
      if st.Error? {
        return;
      }
      MergeIsNewImage(c, i, d);
      d := Merge(d, shadow[i], shadow[i + 1]);
      OpenSignatureFills(c.NewImage(), i, d);
      d := OpenSignature(d, i);
      DwordScriptAt(c, i / 2);
      st := Perform(ProgramDword(i + BankOffset(g, Other(bank)), LowWord(d), HighWord(d)),
                    c.flash, before, c.DwordScript(), Lead(c) + i / 2);
    }

    /** Signs the new bank and invalidates the old one, dword by dword. */
    method CloseDwords(bank: nat, ghost c: Commit, ghost before: seq<Cycle>) returns (st: Status, ghost k: nat)
      requires Valid() && c.Valid() && c.g == g && c.bank == bank
      requires At(c.flash, before, c.DwordScript(), Lead(c) + SHADOW_WORDS / 2)
      modifies this`words, this`log, this`tries
      ensures Valid() && At(c.flash, before, c.DwordScript(), k)
      ensures (st.Ok? <==> k == |c.DwordScript()|) && (cycles.Always? && readsWork ==> st.Ok?)
    {
      hide And, Or, FillWord, Overlay, LowWord, HighWord, Pack, AndWord, Run, Filled, Commit.Copied, Commit.NewImage,
          Commit.BothSigned;
      var newSig, oldSig := BankOffset(g, Other(bank)) + SIG_WORD, BankOffset(g, bank) + SIG_WORD;
      k := Lead(c) + SHADOW_WORDS / 2;
      DwordCopyAt(c, SHADOW_WORDS, 0);
      var d;
      st, d := ReadFlashDword(newSig - 1);
      if st.Error? {
        return;
      }
      PackedWords(words[newSig - 1], words[newSig]);
      SignDword(d);
      d := d & 0xBFFFFFFF;
      st := Perform(ProgramDword(newSig - 1, LowWord(d), HighWord(d)), c.flash, before, c.DwordScript(), k);
      if st.Error? {
        return;
      }
      k := k + 1;
      DwordClosePrefix(c, 1);
      OldSignatureKept(c);
      st, d := ReadFlashDword(oldSig - 1);
      if st.Error? {
        return;
      }
      PackedWords(words[oldSig - 1], words[oldSig]);
      UnsignDword(d);
      d := d & 0x00FFFFFF;
      st := Perform(ProgramDword(oldSig - 1, LowWord(d), HighWord(d)), c.flash, before, c.DwordScript(), k);
      if st.Error? {
        return;
      }
      k := k + 1;
    }

    /** The dword-wise commit, with the same contract against its own script. */
    method CommitDwords() returns (st: Status, ghost c: Commit, ghost done: seq<Cycle>)
      requires Valid()
      modifies this`words, this`log, this`tries, shadow
      ensures Valid()
      ensures c.Valid() && c.flash == old(words) && c.g == g && c.shadow == old(shadow[..])
      ensures c.bank == 0 || c.bank == ActiveBank(old(words), g)
      ensures readsWork ==> c.bank == ActiveBank(old(words), g)
      ensures erasesResolve ==> c.erased
      ensures done <= c.DwordScript() && words == Run(old(words), done) && log == old(log) + done
      ensures st.Ok? ==> done == c.DwordScript() && Clean(shadow[..])
      ensures st.Error? ==> |done| < |c.DwordScript()| && shadow[..] == old(shadow[..])
      ensures (cycles.Never? ==> st.Error? && done == []) && (cycles.Always? && readsWork ==> st.Ok?)
    {
      hide Run, Apply, And, Or, Overlay, FillWord;
      var bank;
      st, bank, c := BeginCommit();
      done := [];
      LeadRuns(c);
      RunNothing(old(words));
      if st.Error? {
        return;
      }
      ghost var k := Lead(c);
      assert c.DwordScript()[..k] == EraseCycles(g, bank, c.erased);
      var i := 0;
      while i < SHADOW_WORDS
        invariant i <= SHADOW_WORDS && i % 2 == 0 && Valid() && k == Lead(c) + i / 2
        invariant At(c.flash, old(log), c.DwordScript(), k)
        invariant shadow[..] == old(shadow[..]) && (cycles.Never? ==> i == 0 && !c.erased)
      {
        st := CopyDword(i, bank, c, old(log));
        if st.Error? {
          done := c.DwordScript()[..k];
          return;
        }
        k := k + 1;
        i := i + 2;
      }
      st, k := CloseDwords(bank, c, old(log));
      done := c.DwordScript()[..k];
      if st.Ok? {
        ClearShadow();
      }
    }

    // ---------------------------------------------------------- checksum repair

    /** Sectors fit the banks, some bank is signed and readers see a signed image. */
    ghost predicate Settled()
      reads this, shadow
    {
      Valid() && SoundGeometry(g) && SomeBankSigned(words, g) && Signed(CurrentView()[SIG_WORD])
    }

    /** In addition, reading cycles work. */
    ghost predicate Serviceable()
      reads this, shadow
    {
      Settled() && readsWork
    }

    /** An image can be committed without harm to the view: an erase is never passed over in silence, or
        the part cannot be written at all, or the spare bank still has every bit of the image. */
    ghost predicate Safe(image: seq<Word>)
      requires Valid() && |image| == SHADOW_WORDS
      reads this
    {
      erasesResolve || cycles.Never? || OnlyClears(Image(words, g, Other(ActiveBank(words, g))), image)
    }

    /** In addition, if the valid-checksum bit is clear, the repaired image is safe to commit. */
    ghost predicate Repairable()
      requires ValidBitPlace(validWord, validMask)
      reads this, shadow
    {
      Serviceable()
      && (BitClear(CurrentView(), validWord, validMask) ==> Safe(Repaired(CurrentView(), validWord, validMask)))
    }

    /** Puts the checksum over what readers see into the shadow RAM. */
    method UpdateChecksumGeneric() returns (st: Status)
      requires Valid()
      modifies shadow
      ensures readsWork ==> st.Ok? && CurrentView() == WithChecksum(old(CurrentView()))
      ensures readsWork ==>
        && SumIsRight(CurrentView())
        && forall i :: 0 <= i < SHADOW_WORDS && i != CHECKSUM_WORD ==> CurrentView()[i] == old(CurrentView())[i]
    {
      hide Plus, Minus;
      var sum := Word(0);
      var i := 0;
      while i < CHECKSUM_WORD
        invariant i <= CHECKSUM_WORD && shadow[..] == old(shadow[..])
        invariant readsWork ==> sum == Sum(CurrentView(), i)
      {
        var w;
        st, w := ReadWord(i);
        if st.Error? {
          return;
        }
        sum := Plus(sum, w);
        i := i + 1;
      }
      ghost var before := shadow[..];
      st := WriteWords(CHECKSUM_WORD, [Minus(NVM_SUM, sum)]);
      hide Overlay, View;
      PendingWordShows(words, g, before, CHECKSUM_WORD, Minus(NVM_SUM, sum));
      assert shadow[..] == before[CHECKSUM_WORD := ShadowWord(true, Minus(NVM_SUM, sum))];
      ChecksumRepairs(old(CurrentView()));
    }

    /** The commit by the access the controller offers.  It leaves what some prefix of the byte-wise
        script leaves; what readers see is unchanged exactly when KeepsView says so of that prefix, and
        always when the image was safe to commit. */
    method CommitShadow() returns (st: Status, ghost c: Commit, ghost k: nat)
      requires Valid()
      modifies this`words, this`log, this`tries, shadow
      ensures Valid() && c.Valid() && c.flash == old(words) && c.g == g && c.shadow == old(shadow[..])
      ensures k <= |c.ByteScript()| && words == Run(c.flash, c.ByteScript()[..k])
      ensures st.Ok? <==> k == |c.ByteScript()|
      ensures if st.Ok? then Clean(shadow[..]) else shadow[..] == old(shadow[..])
      ensures readsWork ==> c.bank == ActiveBank(old(words), g) && (cycles.Always? ==> st.Ok?)
      ensures old(Settled()) && c.bank == ActiveBank(old(words), g) ==>
        (CurrentView() == old(CurrentView()) <==> KeepsView(c, k)) && (KeepsView(c, k) ==> Settled())
      ensures old(Serviceable()) && old(Safe(CurrentView())) ==> KeepsView(c, k)
      ensures st.Ok? && c.erased && SoundGeometry(g) ==> forall i :: 0 <= i < SHADOW_WORDS ==> Committed(c, words, i)
    {
      hide Run, Overlay, Signed, OnlyClears, And, Committed;
      ghost var done;
      if dwordOnly {
        st, c, done := CommitDwords();
        assert c.DwordScript()[..|done|] == done;
        DwordRefinesByte(c, |done|);
        k := ByteCount(c, |done|);
      } else {
        st, c, done := CommitBytes();
        assert c.ByteScript()[..|done|] == done;
        k := |done|;
      }
      if old(Settled()) && c.bank == ActiveBank(old(words), g) {
        ViewExactly(c, k, shadow[..]);
        if old(Safe(CurrentView())) {
          SafeKeepsView(c, k, erasesResolve, !cycles.Never?);
        }
      }
      AllCommitted(c, k);
    }

    /** The checksum update: into the shadow RAM first, then the commit, which k says how far it got. */
    method UpdateChecksum() returns (st: Status, ghost c: Commit, ghost k: nat)
      requires Valid()
      modifies this`words, this`log, this`tries, shadow
      ensures Valid() && c.Valid() && c.flash == old(words) && c.g == g
      ensures k <= |c.ByteScript()| && words == Run(c.flash, c.ByteScript()[..k]) && (st.Ok? <==> k == |c.ByteScript()|)
      ensures readsWork ==> c.bank == ActiveBank(old(words), g) && c.Intended() == WithChecksum(old(CurrentView()))
      ensures readsWork && cycles.Always? ==> st.Ok?
      ensures old(Serviceable()) ==>
        (CurrentView() == WithChecksum(old(CurrentView())) <==> KeepsView(c, k)) && (KeepsView(c, k) ==> Serviceable())
      ensures old(Serviceable()) && KeepsView(c, k) ==>
        && SumIsRight(CurrentView())
        && forall i :: 0 <= i < SHADOW_WORDS && i != CHECKSUM_WORD ==> CurrentView()[i] == old(CurrentView())[i]
      ensures old(Serviceable()) && old(Safe(WithChecksum(CurrentView()))) ==> KeepsView(c, k)
    {
      hide Run, Overlay, Signed, OnlyClears, And;
      c, k := Commit(words, g, shadow[..], 0, true), 0;
      RunNothing(words);
      st := UpdateChecksumGeneric();
      if st.Error? {
        return;
      }
      ChecksumRepairs(old(CurrentView()));
      assert old(Serviceable()) ==> CurrentView()[SIG_WORD] == old(CurrentView())[SIG_WORD];
      st, c, k := CommitShadow();
    }

    /** Sums the first 64 words. */
    method ValidateGeneric() returns (st: Status)
      requires Valid()
      ensures readsWork ==> (st.Ok? <==> SumIsRight(CurrentView()))
    {
      hide Plus, Minus;
      var sum := Word(0);
      var i := 0;
      while i < CHECKSUM_WORD + 1
        invariant i <= CHECKSUM_WORD + 1
        invariant readsWork ==> sum == Sum(CurrentView(), i)
      {
        var w;
        st, w := ReadWord(i);
        if st.Error? {
          return;
        }
        sum := Plus(sum, w);
        i := i + 1;
      }
      st := if sum == NVM_SUM then Ok else Error;
    }

    /** Repairs an image whose valid-checksum bit is clear: sets the bit and updates the checksum.  The
        commit is c, and k says how far it got. */
    method Repair() returns (st: Status, ghost c: Commit, ghost k: nat)
      requires Valid() && ValidBitPlace(validWord, validMask)
      modifies this`words, this`log, this`tries, shadow
      ensures Valid() && c.Valid() && c.flash == old(words) && c.g == g && k <= |c.ByteScript()|
      ensures readsWork && !BitClear(old(CurrentView()), validWord, validMask) ==>
        st.Ok? && words == old(words) && shadow[..] == old(shadow[..])
      ensures readsWork && BitClear(old(CurrentView()), validWord, validMask) ==>
        && c.Intended() == Repaired(old(CurrentView()), validWord, validMask) && c.bank == ActiveBank(old(words), g)
        && words == Run(c.flash, c.ByteScript()[..k])
        && (st.Ok? <==> k == |c.ByteScript()|) && (cycles.Always? ==> k == |c.ByteScript()|)
      ensures old(Serviceable()) && BitClear(old(CurrentView()), validWord, validMask) ==>
        && (CurrentView() == Repaired(old(CurrentView()), validWord, validMask) <==> KeepsView(c, k))
        && (KeepsView(c, k) ==> Serviceable())
      ensures old(Repairable()) && BitClear(old(CurrentView()), validWord, validMask) ==> KeepsView(c, k)
    {
      hide Run, Overlay, Signed, OnlyClears, KeepsView, Plus, Minus, Sum;
      c, k := Commit(words, g, shadow[..], 0, true), 0;
      RunNothing(words);
      var data;
      st, data := ReadWord(validWord);
      if st.Error? {
        return;
      }
      if And(data, validMask) == Word(0) {
        data := Or(data, validMask);
        ghost var before := shadow[..];
        st := WriteWords(validWord, [data]);
        PendingWordShows(words, g, before, validWord, data);
        assert shadow[..] == before[validWord := ShadowWord(true, data)];
        st, c, k := UpdateChecksum();
      }
    }

    /** Validation repairs an image whose valid-checksum bit is clear before it sums up.  The commit of the
        repair is c, and k says how far it got. */
    method Validate() returns (st: Status, ghost c: Commit, ghost k: nat)
      requires Valid() && ValidBitPlace(validWord, validMask)
      modifies this`words, this`log, this`tries, shadow
      ensures Valid() && c.Valid() && c.flash == old(words) && c.g == g && k <= |c.ByteScript()|
      ensures readsWork && st.Ok? ==> SumIsRight(CurrentView())
      ensures old(Serviceable()) && !BitClear(old(CurrentView()), validWord, validMask) ==>
        Serviceable() && CurrentView() == old(CurrentView()) && (st.Ok? <==> SumIsRight(old(CurrentView())))
      ensures readsWork && BitClear(old(CurrentView()), validWord, validMask) ==>
        && c.Intended() == Repaired(old(CurrentView()), validWord, validMask) && c.bank == ActiveBank(old(words), g)
        && words == Run(c.flash, c.ByteScript()[..k])
        && (st.Ok? <==> k == |c.ByteScript()| && SumIsRight(CurrentView())) && (cycles.Always? ==> k == |c.ByteScript()|)
      ensures old(Serviceable()) && BitClear(old(CurrentView()), validWord, validMask) ==>
        && (CurrentView() == Repaired(old(CurrentView()), validWord, validMask) <==> KeepsView(c, k))
        && (KeepsView(c, k) ==> Serviceable())
      ensures old(Serviceable()) && And(old(CurrentView())[validWord], validMask) != Word(0) ==> CurrentView() == old(CurrentView())
      ensures old(Serviceable()) && And(old(CurrentView())[validWord], validMask) == Word(0) && KeepsView(c, k) ==>
        && (forall i :: 0 <= i < SHADOW_WORDS && i != validWord && i != CHECKSUM_WORD ==> CurrentView()[i] == old(CurrentView())[i])
        && CurrentView()[validWord] == Word(old(CurrentView())[validWord].bits | validMask.bits)
      ensures old(Repairable()) && BitClear(old(CurrentView()), validWord, validMask) ==> KeepsView(c, k)
    {
      hide Run, Overlay, Signed, OnlyClears, KeepsView, Plus, Minus, Sum, Repaired, And, Or, SumIsRight;
      RepairedElsewhere(CurrentView(), validWord, validMask);
      st, c, k := Repair();
      if st.Ok? {
        st := ValidateGeneric();
      }
    }

    /** The start-up loop tries up to three times.  With working reads and a signed bank it succeeds
        exactly when the valid-checksum bit was clear or the stored sum was right already, even if
        every commit fails; an image that has to be repaired must be safe to commit.  In any case readers
        see a right sum after a success. */
    method ValidateAtStart() returns (success: bool)
      requires Valid() && ValidBitPlace(validWord, validMask)
      modifies this`words, this`log, this`tries, shadow
      ensures Valid() && (readsWork && success ==> SumIsRight(CurrentView()))
      ensures old(Repairable()) ==>
        (success <==> BitClear(old(CurrentView()), validWord, validMask) || SumIsRight(old(CurrentView())))
    {
      hide Run, Overlay, Signed, OnlyClears, KeepsView;
      ghost var v, works := CurrentView(), Repairable();
      ghost var clear := BitClear(v, validWord, validMask);
      RepairedIsRight(v, validWord, validMask);
      var i := 0;
      while true
        invariant 0 <= i <= 2 && Valid() && (works ==> Serviceable())
        invariant works && i == 0 ==> CurrentView() == v && words == old(words)
        invariant works && i > 0 ==> if clear then CurrentView() == Repaired(v, validWord, validMask)
                                     else CurrentView() == v && !SumIsRight(v)
        invariant works && clear ==> i <= 1
        decreases 2 - i
      {
        var st, c, k := Validate();
        if st.Ok? {
          return true;
        }
        if i == 2 {
          return false;
        }
        i := i + 1;
      }
    }
  }

  // ------------------------------------------------------------ what the repair rests on

  /** The valid-checksum bit lies in another word than signature and checksum. */
  predicate ValidBitPlace(word: nat, mask: Word) {
    word < SHADOW_WORDS && word != SIG_WORD && word != CHECKSUM_WORD && mask != Word(0)
  }

  predicate BitClear(image: seq<Word>, word: nat, mask: Word)
    requires |image| == SHADOW_WORDS && word < SHADOW_WORDS
  {
    And(image[word], mask) == Word(0)
  }

  /** The image with its valid-checksum bit set and its checksum recomputed. */
  function Repaired(image: seq<Word>, word: nat, mask: Word): (r: seq<Word>)
    requires |image| == SHADOW_WORDS && word < SHADOW_WORDS
    ensures |r| == SHADOW_WORDS
  {
    WithChecksum(image[word := Or(image[word], mask)])
  }

  /** A repair changes one word and the checksum. */
  lemma RepairedElsewhere(image: seq<Word>, word: nat, mask: Word)
    requires |image| == SHADOW_WORDS && ValidBitPlace(word, mask)
    ensures forall i :: 0 <= i < SHADOW_WORDS && i != word && i != CHECKSUM_WORD ==> Repaired(image, word, mask)[i] == image[i]
    ensures Repaired(image, word, mask)[word] == Word(image[word].bits | mask.bits)
  {
    hide And, Sum, Minus;
  }

  lemma BitGetsSet(w: Word, mask: Word)
    requires mask != Word(0)
    ensures And(Or(w, mask), mask) != Word(0)
  {
  }

  /** A repaired image passes validation at once and is not repaired again. */
  lemma RepairedIsRight(image: seq<Word>, word: nat, mask: Word)
    requires |image| == SHADOW_WORDS && ValidBitPlace(word, mask)
    ensures SumIsRight(Repaired(image, word, mask)) && !BitClear(Repaired(image, word, mask), word, mask)
    ensures Repaired(image, word, mask)[SIG_WORD] == image[SIG_WORD]
  {
    ChecksumRepairs(image[word := Or(image[word], mask)]);
    BitGetsSet(image[word], mask);
  }

  /** A word pending in the shadow RAM is what readers see. */
  lemma PendingWordShows(flash: seq<Word>, g: Geometry, shadow: seq<ShadowWord>, at: nat, w: Word)
    requires Fits(flash, g) && |shadow| == SHADOW_WORDS && at < SHADOW_WORDS
    ensures View(flash, g, shadow[at := ShadowWord(true, w)]) == View(flash, g, shadow)[at := w]
  {
  }

  lemma AllCommitted(c: Commit, k: nat)
    requires c.Valid() && k <= |c.ByteScript()|
    ensures k == |c.ByteScript()| && c.erased && SoundGeometry(c.g) ==>
      forall i :: 0 <= i < SHADOW_WORDS ==> Committed(c, Run(c.flash, c.ByteScript()[..k]), i)
  {
    hide Run, Committed, Commit.ByteScript;
    if k == |c.ByteScript()| && c.erased && SoundGeometry(c.g) {
      assert c.ByteScript()[..k] == c.ByteScript();
      forall i | 0 <= i < SHADOW_WORDS ensures Committed(c, Run(c.flash, c.ByteScript()), i) {
        WholeCommit(c, i);
      }
    }
  }

  /** Readers of a flash with a signed bank and an empty shadow RAM see a signed image. */
  lemma CleanViewIsSigned(flash: seq<Word>, g: Geometry, shadow: seq<ShadowWord>)
    requires Fits(flash, g) && SomeBankSigned(flash, g) && Clean(shadow)
    ensures Signed(View(flash, g, shadow)[SIG_WORD])
  {
  }

  /** A safe image keeps the view wherever its commit stops. */
  lemma SafeKeepsView(c: Commit, k: nat, erasesResolve: bool, writable: bool)
    requires c.Sound() && k <= |c.ByteScript()|
    requires erasesResolve ==> c.erased
    requires !writable ==> k == 0
    requires erasesResolve || !writable || OnlyClears(Image(c.flash, c.g, Other(c.bank)), c.Intended())
    ensures KeepsView(c, k)
  {
    hide OnlyClears, Overlay, And, Or, TopBit;
    if c.erased {
      ErasedKeepsView(c, k);
    } else if writable {
      CoveredKeepsView(c, k);
    }
  }
}
