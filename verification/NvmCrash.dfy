/** Crash atomicity of the commit, what a reader sees on every way out of it, and the refinement
    of the byte-wise commit by the dword-wise one. */
module NvmCrash {
  import opened FlashPart
  import opened NvmCommit

  // ------------------------------------------------------------ the state after each prefix

  /** Number of erase cycles at the head of a script. */
  function Lead(c: Commit): nat { if c.erased then 1 else 0 }

  /** The flash after the first k cycles of the byte-wise script. */
  function ByteState(c: Commit, k: nat): (r: seq<Word>)
    requires c.Valid() && k <= |c.ByteScript()|
    ensures |r| == |c.flash|
  {
    var j := k - Lead(c);
    if j < 0 then c.flash
    else if j <= 2 * SHADOW_WORDS then CopyState(c, j)
    else if j == 2 * SHADOW_WORDS + 1 then c.BothSigned()
    else c.Finished()
  }

  /** The flash after j byte cycles of the copy. */
  function CopyState(c: Commit, j: nat): (r: seq<Word>)
    requires c.Valid() && j <= 2 * SHADOW_WORDS
    ensures |r| == |c.flash|
  {
    if j % 2 == 0 then c.Copied(j / 2) else HalfFilled(c.Base(), c.NewImage(), c.NewOffset(), j / 2)
  }

  lemma {:induction false} ByteFillPrefix(image: seq<Word>, offset: nat, m: nat, n: nat)
    requires n <= m <= |image|
    ensures ByteFill(image, offset, m)[..2 * n] == ByteFill(image, offset, n)
    ensures n < m ==> ByteFill(image, offset, m)[2 * n..2 * n + 2] == WordCycles(offset + n, FillWord(image, n))
  {
    if n < m {
      var all, most := ByteFill(image, offset, m), ByteFill(image, offset, m - 1);
      ByteFillPrefix(image, offset, m - 1, n);
      assert all[..2 * n] == most[..2 * n];
      if n < m - 1 {
        assert all[2 * n..2 * n + 2] == most[2 * n..2 * n + 2];
      }
    } else {
      assert ByteFill(image, offset, m)[..2 * n] == ByteFill(image, offset, n);
    }
  }

  lemma {:induction false} DwordFillPrefix(image: seq<Word>, offset: nat, m: nat, n: nat)
    requires n <= m && 2 * m <= |image|
    ensures DwordFill(image, offset, m)[..n] == DwordFill(image, offset, n)
  {
    if n < m {
      DwordFillPrefix(image, offset, m - 1, n);
      assert DwordFill(image, offset, m)[..n] == DwordFill(image, offset, m - 1)[..n];
    }
  }

  /** The erase, or its absence, leads from the initial flash to the base of the copy. */
  lemma LeadRuns(c: Commit)
    requires c.Valid()
    ensures Run(c.flash, EraseCycles(c.g, c.bank, c.erased)) == c.Base()
  {
    if c.erased {
      RunSnoc(c.flash, [], EraseCycles(c.g, c.bank, true)[0]);
      assert [] + [EraseCycles(c.g, c.bank, true)[0]] == EraseCycles(c.g, c.bank, true);
    }
  }

  /** A high-byte cycle whose mask acts on the stored word as the given one does. */
  lemma HighByteApply(flash: seq<Word>, address: nat, byte: bv8, mask: Word)
    requires address < |flash| && And(flash[address], HighMask(byte)) == And(flash[address], mask)
    ensures Apply(flash, ProgramByte(2 * address + 1, byte)) == AndWord(flash, address, mask)
  {
    hide And, HighMask;
    assert (2 * address + 1) / 2 == address;
  }

  /** Bit 14 is in the high byte, and zeroing that byte leaves the low one. */
  lemma HighBits(x: Word)
    ensures And(x, HighMask(HighByte(And(x, SIGN)))) == And(x, SIGN)
    ensures And(x, HighMask(0)) == And(x, UNSIGN)
  {
  }

  lemma AndSelf(x: Word, mask: Word)
    ensures And(x, x) == x && And(x, And(x, mask)) == And(x, mask)
  {
  }

  /** Writing a pair back with its upper word masked ANDs the mask into that word alone. */
  lemma MaskUpper(flash: seq<Word>, address: nat, mask: Word)
    requires address + 1 < |flash|
    ensures Apply(flash, ProgramDword(address, flash[address], And(flash[address + 1], mask)))
         == AndWord(flash, address + 1, mask)
  {
    hide And;
    AndSelf(flash[address], mask);
    AndSelf(flash[address + 1], mask);
    assert AndWord(flash, address, flash[address]) == flash;
  }

  lemma ByteCloseSteps(c: Commit)
    requires c.Valid()
    ensures var close := ByteClose(c.Copied(SHADOW_WORDS), c.g, c.bank);
      Apply(c.Copied(SHADOW_WORDS), close[0]) == c.BothSigned() && Apply(c.BothSigned(), close[1]) == c.Finished()
  {
    var newSig, oldSig := c.NewOffset() + SIG_WORD, c.OldOffset() + SIG_WORD;
    var sig := c.Copied(SHADOW_WORDS)[newSig];
    HighBits(sig);
    HighByteApply(c.Copied(SHADOW_WORDS), newSig, HighByte(And(sig, SIGN)), SIGN);
    HighBits(c.BothSigned()[oldSig]);
    HighByteApply(c.BothSigned(), oldSig, 0, UNSIGN);
  }

  lemma DwordCloseSteps(c: Commit)
    requires c.Valid()
    ensures var close := DwordClose(c.Copied(SHADOW_WORDS), c.g, c.bank);
      Apply(c.Copied(SHADOW_WORDS), close[0]) == c.BothSigned() && Apply(c.BothSigned(), close[1]) == c.Finished()
  {
    hide And, Or, FillWord, Filled, LowWord, HighWord;
    var filled := c.Copied(SHADOW_WORDS);
    var newSig, oldSig := c.NewOffset() + SIG_WORD, c.OldOffset() + SIG_WORD;
    MaskUpper(filled, newSig - 1, SIGN);
    var both := AndWord(filled, newSig, SIGN);
    assert both[oldSig - 1] == filled[oldSig - 1] && both[oldSig] == filled[oldSig];
    MaskUpper(both, oldSig - 1, UNSIGN);
  }

  /** Running a prefix of a script made of a lead, a copy and two closing cycles. */
  lemma ScriptPrefix(flash: seq<Word>, lead: seq<Cycle>, fill: seq<Cycle>, close: seq<Cycle>, k: nat)
    requires |close| == 2 && |lead| <= k <= |lead| + |fill| + 2
    ensures var base, now := Run(flash, lead), Run(flash, (lead + fill + close)[..k]);
      && (k <= |lead| + |fill| ==> now == Run(base, fill[..k - |lead|]))
      && (k == |lead| + |fill| + 1 ==> now == Apply(Run(base, fill), close[0]))
      && (k == |lead| + |fill| + 2 ==> now == Apply(Apply(Run(base, fill), close[0]), close[1]))
  {
    var all := lead + fill + close;
    if k <= |lead| + |fill| {
      assert all[..k] == lead + fill[..k - |lead|];
      RunConcat(flash, lead, fill[..k - |lead|]);
    } else {
      RunConcat(flash, lead, fill);
      RunSnoc(flash, lead + fill, close[0]);
      if k == |lead| + |fill| + 1 {
        assert all[..k] == lead + fill + [close[0]];
      } else {
        RunSnoc(flash, lead + fill + [close[0]], close[1]);
        assert all[..k] == lead + fill + [close[0]] + [close[1]];
      }
    }
  }

  /** The byte-wise copy stopped after n words. */
  lemma ByteFillWhole(flash: seq<Word>, image: seq<Word>, offset: nat, n: nat)
    requires |image| == SHADOW_WORDS && offset + SHADOW_WORDS <= |flash| && n <= SHADOW_WORDS
    ensures Run(flash, ByteFill(image, offset, SHADOW_WORDS)[..2 * n]) == Filled(flash, image, offset, n)
  {
    ByteFillPrefix(image, offset, SHADOW_WORDS, n);
    ByteFillRuns(flash, image, offset, n);
  }

  /** The byte-wise copy stopped after n words and a byte. */
  lemma ByteFillHalf(flash: seq<Word>, image: seq<Word>, offset: nat, n: nat)
    requires |image| == SHADOW_WORDS && offset + SHADOW_WORDS <= |flash| && n < SHADOW_WORDS
    ensures Run(flash, ByteFill(image, offset, SHADOW_WORDS)[..2 * n + 1]) == HalfFilled(flash, image, offset, n)
  {
    hide And, Or, AndWord, Apply;
    var fill := ByteFill(image, offset, SHADOW_WORDS);
    var w := WordCycles(offset + n, FillWord(image, n));
    ByteFillWhole(flash, image, offset, n);
    ByteFillPrefix(image, offset, SHADOW_WORDS, n);
    assert fill[2 * n] == fill[2 * n..2 * n + 2][0] == w[0];
    assert fill[..2 * n + 1] == fill[..2 * n] + [w[0]];
    RunSnoc(flash, fill[..2 * n], w[0]);
  }

  lemma CopyPrefix(c: Commit, j: nat)
    requires c.Valid() && j <= 2 * SHADOW_WORDS
    ensures Run(c.Base(), ByteFill(c.NewImage(), c.NewOffset(), SHADOW_WORDS)[..j]) == CopyState(c, j)
  {
    hide And, Or, AndWord, FillWord, Overlay, HalfFilled, Filled, Run;
    if j % 2 == 0 {
      ByteFillWhole(c.Base(), c.NewImage(), c.NewOffset(), j / 2);
    } else {
      ByteFillHalf(c.Base(), c.NewImage(), c.NewOffset(), j / 2);
    }
  }

  /** Every prefix of the byte-wise script leaves exactly the state computed by ByteState. */
  lemma BytePrefix(c: Commit, k: nat)
    requires c.Valid() && k <= |c.ByteScript()|
    ensures Run(c.flash, c.ByteScript()[..k]) == ByteState(c, k)
  {
    hide And, Or, AndWord, FillWord, Overlay;
    var j := k - Lead(c);
    if j < 0 {
      assert c.ByteScript()[..k] == [];
    } else {
      var fill := ByteFill(c.NewImage(), c.NewOffset(), SHADOW_WORDS);
      LeadRuns(c);
      ScriptPrefix(c.flash, EraseCycles(c.g, c.bank, c.erased), fill, ByteClose(c.Copied(SHADOW_WORDS), c.g, c.bank), k);
      if j <= |fill| {
        CopyPrefix(c, j);
      } else {
        ByteFillRuns(c.Base(), c.NewImage(), c.NewOffset(), SHADOW_WORDS);
        ByteCloseSteps(c);
      }
    }
  }

  /** The byte-wise cycle count that has the same effect as k dword-wise cycles. */
  function ByteCount(c: Commit, k: nat): nat {
    if k < Lead(c) then k
    else if k <= Lead(c) + SHADOW_WORDS / 2 then Lead(c) + 4 * (k - Lead(c))
    else Lead(c) + 2 * SHADOW_WORDS + (k - Lead(c) - SHADOW_WORDS / 2)
  }

  /** Refinement: every prefix of the dword-wise commit leaves the flash as some prefix of the
      byte-wise commit does, and the two end alike. */
  lemma DwordRefinesByte(c: Commit, k: nat)
    requires c.Valid() && k <= |c.DwordScript()|
    ensures ByteCount(c, k) <= |c.ByteScript()|
    ensures Run(c.flash, c.DwordScript()[..k]) == Run(c.flash, c.ByteScript()[..ByteCount(c, k)])
    ensures Run(c.flash, c.DwordScript()) == Run(c.flash, c.ByteScript()) == c.Finished()
  {
    DwordPrefix(c, k);
    BytePrefix(c, ByteCount(c, k));
    DwordPrefix(c, |c.DwordScript()|);
    BytePrefix(c, |c.ByteScript()|);
    assert c.DwordScript()[..|c.DwordScript()|] == c.DwordScript();
    assert c.ByteScript()[..|c.ByteScript()|] == c.ByteScript();
  }

  /** The dword-wise script up to the end of its copy. */
  lemma DwordCopyPrefix(c: Commit, n: nat)
    requires c.Valid() && n <= SHADOW_WORDS / 2
    ensures Run(c.flash, c.DwordScript()[..Lead(c) + n]) == c.Copied(2 * n)
  {
    hide And, Or, FillWord, Overlay, Run, Filled;
    var fill := DwordFill(c.NewImage(), c.NewOffset(), SHADOW_WORDS / 2);
    LeadRuns(c);
    ScriptPrefix(c.flash, EraseCycles(c.g, c.bank, c.erased), fill, DwordClose(c.Copied(SHADOW_WORDS), c.g, c.bank),
        Lead(c) + n);
    DwordFillPrefix(c.NewImage(), c.NewOffset(), SHADOW_WORDS / 2, n);
    DwordFillRuns(c.Base(), c.NewImage(), c.NewOffset(), n);
  }

  /** The dword-wise script with its closing cycles. */
  lemma DwordClosePrefix(c: Commit, n: nat)
    requires c.Valid() && 1 <= n <= 2
    ensures Run(c.flash, c.DwordScript()[..Lead(c) + SHADOW_WORDS / 2 + n]) == if n == 1 then c.BothSigned() else c.Finished()
  {
    var fill := DwordFill(c.NewImage(), c.NewOffset(), SHADOW_WORDS / 2);
    LeadRuns(c);
    ScriptPrefix(c.flash, EraseCycles(c.g, c.bank, c.erased), fill, DwordClose(c.Copied(SHADOW_WORDS), c.g, c.bank),
                 Lead(c) + SHADOW_WORDS / 2 + n);
    DwordFillRuns(c.Base(), c.NewImage(), c.NewOffset(), SHADOW_WORDS / 2);
    DwordCloseSteps(c);
  }

  lemma DwordPrefix(c: Commit, k: nat)
    requires c.Valid() && k <= |c.DwordScript()|
    ensures ByteCount(c, k) <= |c.ByteScript()|
    ensures Run(c.flash, c.DwordScript()[..k]) == ByteState(c, ByteCount(c, k))
  {
    hide And, Or, AndWord, FillWord, Overlay, HalfFilled, Filled, Run;
    if k < Lead(c) {
      assert c.DwordScript()[..k] == [];
      assert c.ByteScript()[..k] == [];
      BytePrefix(c, k);
    } else if k <= Lead(c) + SHADOW_WORDS / 2 {
      var n := k - Lead(c);
      DwordCopyPrefix(c, n);
      assert (4 * n) % 2 == 0 && (4 * n) / 2 == 2 * n;
      assert ByteState(c, Lead(c) + 4 * n) == CopyState(c, 4 * n);
    } else {
      DwordClosePrefix(c, k - Lead(c) - SHADOW_WORDS / 2);
    }
  }

  // ------------------------------------------------------------ what the erase leaves

  lemma BaseAt(c: Commit, a: nat)
    requires c.Valid() && c.erased && a < |c.flash|
    ensures var start := SectorStart(c.g, c.NewOffset());
      c.Base()[a] == if start <= a < start + c.g.sectorWords then ERASED else c.flash[a]
  {
  }

  lemma SameImage(flash: seq<Word>, g: Geometry, bank: nat, image: seq<Word>)
    requires Fits(flash, g) && |image| == SHADOW_WORDS
    requires forall i :: 0 <= i < SHADOW_WORDS ==> flash[BankOffset(g, bank) + i] == image[i]
    ensures Image(flash, g, bank) == image
  {
  }

  /** With sound geometry the erase misses the old bank, so that the copy reads what was intended. */
  lemma OldBankKept(c: Commit)
    requires c.Sound()
    ensures Image(c.Base(), c.g, c.bank) == Image(c.flash, c.g, c.bank) && c.NewImage() == c.Intended()
  {
    hide Overlay, SectorStart, EraseRange;
    if c.erased {
      var kept := Image(c.flash, c.g, c.bank);
      forall i | 0 <= i < SHADOW_WORDS ensures c.Base()[c.OldOffset() + i] == kept[i] {
        BaseAt(c, c.OldOffset() + i);
      }
      SameImage(c.Base(), c.g, c.bank, kept);
    }
  }

  lemma SpareErased(c: Commit, i: nat)
    requires c.Sound() && c.erased && i < SHADOW_WORDS
    ensures c.Spare()[i] == ERASED
  {
    hide SectorStart, EraseRange;
    BaseAt(c, c.NewOffset() + i);
  }

  // ------------------------------------------------------------ crash atomicity

  /** The selected bank holds the complete old or the complete new image. */
  predicate Atomic(c: Commit, now: seq<Word>)
    requires c.Valid() && |now| == |c.flash|
  {
    SomeBankSigned(now, c.g)
    && var selected := Image(now, c.g, ActiveBank(now, c.g));
       selected == Image(c.flash, c.g, ActiveBank(c.flash, c.g)) || selected == Published(c.Intended())
  }

  /** The old bank is untouched, and the signature bits of the new one are those it had before the copy. */
  ghost predicate Preparing(c: Commit, now: seq<Word>)
    requires c.Valid()
  {
    |now| == |c.flash|
    && (forall a :: c.OldOffset() <= a < c.OldOffset() + SHADOW_WORDS ==> now[a] == c.flash[a])
    && And(now[c.NewOffset() + SIG_WORD], SIG_MASK) == And(c.Spare()[SIG_WORD], SIG_MASK)
  }

  lemma FillKeepsSignature(b: Word, w: Word)
    ensures And(And(b, Or(w, SIG_MASK)), SIG_MASK) == And(b, SIG_MASK)
    ensures And(And(b, LowMask(LowByte(Or(w, SIG_MASK)))), SIG_MASK) == And(b, SIG_MASK)
  {
  }

  lemma ErasedIsNotSigned()
    ensures !Signed(ERASED) && TopBit(ERASED)
  {
  }

  lemma CopyIsPreparing(c: Commit, n: nat)
    requires c.Sound() && n <= SHADOW_WORDS
    ensures Preparing(c, c.Copied(n))
  {
    hide And, Or, Overlay, SectorStart, FillWord;
    OldBankKept(c);
    var sig := c.NewOffset() + SIG_WORD;
    forall a | c.OldOffset() <= a < c.OldOffset() + SHADOW_WORDS ensures c.Copied(n)[a] == c.flash[a] {
      FilledAt(c.Base(), c.NewImage(), c.NewOffset(), n, a);
      assert Image(c.Base(), c.g, c.bank)[a - c.OldOffset()] == Image(c.flash, c.g, c.bank)[a - c.OldOffset()];
    }
    FilledAt(c.Base(), c.NewImage(), c.NewOffset(), n, sig);
    SignatureFill(c.NewImage());
    FillKeepsSignature(c.Base()[sig], c.NewImage()[SIG_WORD]);
  }

  lemma SignatureFill(image: seq<Word>)
    requires |image| == SHADOW_WORDS
    ensures FillWord(image, SIG_WORD) == Or(image[SIG_WORD], SIG_MASK)
  {
  }

  lemma HalfCopyIsPreparing(c: Commit, n: nat)
    requires c.Sound() && n < SHADOW_WORDS
    ensures Preparing(c, HalfFilled(c.Base(), c.NewImage(), c.NewOffset(), n))
  {
    hide And, Or, Overlay, SectorStart, FillWord, LowMask, LowByte, Preparing, AndWord, Filled, SoundGeometry;
    CopyIsPreparing(c, n);
    var w, address := FillWord(c.NewImage(), n), c.NewOffset() + n;
    assert (2 * address) / 2 == address;
    FilledAt(c.Base(), c.NewImage(), c.NewOffset(), n, address);
    SignatureFill(c.NewImage());
    FillKeepsSignature(c.Base()[address], c.NewImage()[n]);
    MaskedIsPreparing(c, c.Copied(n), address, ByteMask(2 * address, LowByte(w)));
  }

  /** A cycle in the new bank that keeps its signature bits. */
  lemma MaskedIsPreparing(c: Commit, now: seq<Word>, address: nat, mask: Word)
    requires c.Valid() && Preparing(c, now) && c.NewOffset() <= address < c.NewOffset() + SHADOW_WORDS
    requires address == c.NewOffset() + SIG_WORD ==> And(And(now[address], mask), SIG_MASK) == And(now[address], SIG_MASK)
    ensures Preparing(c, AndWord(now, address, mask))
  {
    hide And;
  }

  lemma CopyStatesPrepare(c: Commit, k: nat)
    requires c.Sound() && Lead(c) <= k <= Lead(c) + 2 * SHADOW_WORDS
    ensures Preparing(c, ByteState(c, k))
  {
    hide And, Or, AndWord, FillWord, Overlay, Preparing;
    var j := k - Lead(c);
    if j % 2 == 0 {
      CopyIsPreparing(c, j / 2);
    } else {
      HalfCopyIsPreparing(c, j / 2);
    }
  }

  lemma SignatureBits(v: Word, w: Word)
    requires And(v, SIG_MASK) == And(w, SIG_MASK)
    ensures Signed(v) <==> Signed(w)
  {
  }

  lemma PreparingKeepsOldBank(c: Commit, now: seq<Word>)
    requires c.Valid() && Preparing(c, now)
    ensures Image(now, c.g, c.bank) == Image(c.flash, c.g, c.bank)
    ensures BankSigned(now, c.g, c.bank) <==> BankSigned(c.flash, c.g, c.bank)
    ensures BankSigned(now, c.g, Other(c.bank)) <==> Signed(c.Spare()[SIG_WORD])
  {
    hide And, Signed;
    SignatureBits(now[c.NewOffset() + SIG_WORD], c.Spare()[SIG_WORD]);
  }

  /** Up to the end of the copy the active bank stays selected and untouched, erased partner or not. */
  lemma CopyKeepsSelection(c: Commit, k: nat)
    requires c.Sound() && k <= Lead(c) + 2 * SHADOW_WORDS
    requires SomeBankSigned(c.flash, c.g) && c.bank == ActiveBank(c.flash, c.g)
    ensures var now := ByteState(c, k);
      SomeBankSigned(now, c.g) && ActiveBank(now, c.g) == c.bank && Image(now, c.g, c.bank) == Image(c.flash, c.g, c.bank)
  {
    hide And, Signed, Overlay, FillWord, AndWord;
    if k >= Lead(c) {
      CopyStatesPrepare(c, k);
      PreparingKeepsOldBank(c, ByteState(c, k));
      if c.erased {
        SpareErased(c, SIG_WORD);
        ErasedIsNotSigned();
      }
    }
  }

  lemma PublishedSignature(w: Word)
    ensures Signed(And(Or(w, SIG_MASK), SIGN))
    ensures And(Or(w, SIG_MASK), SIGN) == w <==> Signed(w)
  {
  }

  lemma ClearedSignature(w: Word)
    ensures !Signed(And(w, UNSIGN))
  {
  }

  lemma AndErased(w: Word)
    ensures And(ERASED, w) == w
  {
  }

  lemma AndAssociates(x: Word, m: Word, n: Word)
    ensures And(And(x, m), n) == And(x, And(m, n))
  {
  }

  /** Bit 15, which a program cycle cannot set. */
  predicate TopBit(w: Word) { And(w, Word(0x8000)) == Word(0x8000) }

  /** A word that signing is ANDed into is signed exactly if its top bit was set. */
  lemma SignedOver(b: Word, w: Word)
    ensures Signed(And(b, And(Or(w, SIG_MASK), SIGN))) <==> TopBit(b)
    ensures Signed(w) && Within(w, b) ==> TopBit(b)
    ensures Signed(And(b, w)) ==> TopBit(b)
  {
  }

  /** Words programmed over words: only bits set in both remain. */
  function Masked(start: seq<Word>, image: seq<Word>): (r: seq<Word>)
    requires |start| == |image|
    ensures |r| == |image|
  {
    seq(|image|, i requires 0 <= i < |image| => And(start[i], image[i]))
  }

  /** The image survives programming exactly where every bit of it was still set. */
  lemma MaskedIs(start: seq<Word>, image: seq<Word>)
    requires |start| == |image|
    ensures Masked(start, image) == image <==> OnlyClears(start, image)
  {
    hide And;
    var m := Masked(start, image);
    assert m == image <==> forall i :: 0 <= i < |image| ==> m[i] == image[i];
    forall i | 0 <= i < |image| ensures m[i] == image[i] <==> Within(image[i], start[i]) {
    }
  }

  lemma MaskedErased(c: Commit, image: seq<Word>)
    requires c.Sound() && c.erased && |image| == SHADOW_WORDS
    ensures Masked(c.Spare(), image) == image
  {
    hide And;
    forall i | 0 <= i < SHADOW_WORDS ensures Masked(c.Spare(), image)[i] == image[i] {
      SpareErased(c, i);
      AndErased(image[i]);
    }
  }

  /** A word of the new bank once all is copied and signed. */
  lemma PublishedWord(c: Commit, i: nat)
    requires c.Valid() && i < SHADOW_WORDS
    ensures c.BothSigned()[c.NewOffset() + i] == c.Finished()[c.NewOffset() + i]
         == And(c.Spare()[i], Published(c.NewImage())[i])
  {
    hide Or, Overlay, SectorStart, And;
    var a := c.NewOffset() + i;
    FilledAt(c.Base(), c.NewImage(), c.NewOffset(), SHADOW_WORDS, a);
    if i == SIG_WORD {
      AndAssociates(c.Base()[a], Or(c.NewImage()[i], SIG_MASK), SIGN);
    }
  }

  lemma OldBankWord(c: Commit, i: nat)
    requires c.Sound() && i < SHADOW_WORDS
    ensures var a := c.OldOffset() + i;
      && c.BothSigned()[a] == c.flash[a]
      && c.Finished()[a] == if i == SIG_WORD then And(c.flash[a], UNSIGN) else c.flash[a]
  {
    hide And, Or, Overlay, SectorStart, FillWord;
    OldBankKept(c);
    FilledAt(c.Base(), c.NewImage(), c.NewOffset(), SHADOW_WORDS, c.OldOffset() + i);
    assert Image(c.Base(), c.g, c.bank)[i] == Image(c.flash, c.g, c.bank)[i];
  }

  /** What the last two cycles leave, erased partner or not. */
  lemma Closing(c: Commit)
    requires c.Sound()
    ensures Image(c.BothSigned(), c.g, Other(c.bank)) == Image(c.Finished(), c.g, Other(c.bank))
         == Masked(c.Spare(), Published(c.Intended()))
    ensures Image(c.BothSigned(), c.g, c.bank) == Image(c.flash, c.g, c.bank)
    ensures BankSigned(c.BothSigned(), c.g, Other(c.bank)) <==> TopBit(c.Spare()[SIG_WORD])
    ensures BankSigned(c.Finished(), c.g, Other(c.bank)) <==> TopBit(c.Spare()[SIG_WORD])
    ensures BankSigned(c.BothSigned(), c.g, c.bank) <==> BankSigned(c.flash, c.g, c.bank)
    ensures !BankSigned(c.Finished(), c.g, c.bank)
  {
    hide And, Or, AndWord, Filled, FillWord, Overlay, SectorStart, Signed, TopBit, Commit.BothSigned, Commit.Finished,
      Commit.Intended, Commit.NewImage, Commit.Spare, Commit.Base;
    OldBankKept(c);
    var image, kept := Masked(c.Spare(), Published(c.NewImage())), Image(c.flash, c.g, c.bank);
    forall i | 0 <= i < SHADOW_WORDS
      ensures c.BothSigned()[c.NewOffset() + i] == c.Finished()[c.NewOffset() + i] == image[i]
      ensures c.BothSigned()[c.OldOffset() + i] == kept[i]
    {
      PublishedWord(c, i);
      OldBankWord(c, i);
    }
    SameImage(c.BothSigned(), c.g, Other(c.bank), image);
    SameImage(c.Finished(), c.g, Other(c.bank), image);
    SameImage(c.BothSigned(), c.g, c.bank, kept);
    PublishedWord(c, SIG_WORD);
    OldBankWord(c, SIG_WORD);
    SignedOver(c.Spare()[SIG_WORD], c.NewImage()[SIG_WORD]);
    ClearedSignature(c.flash[c.OldOffset() + SIG_WORD]);
  }

  /** Crash atomicity: with the active bank chosen and its partner erased, every prefix of the
      commit leaves a signed bank selected, holding one of the two complete images. */
  lemma CrashAtomic(c: Commit, k: nat)
    requires c.Sound() && c.erased && k <= |c.ByteScript()|
    requires SomeBankSigned(c.flash, c.g) && c.bank == ActiveBank(c.flash, c.g)
    ensures Atomic(c, Run(c.flash, c.ByteScript()[..k]))
  {
    hide And, Or, Overlay, Signed, TopBit, Masked;
    BytePrefix(c, k);
    if k <= Lead(c) + 2 * SHADOW_WORDS {
      CopyKeepsSelection(c, k);
    } else {
      Closing(c);
      MaskedErased(c, Published(c.Intended()));
      SpareErased(c, SIG_WORD);
      ErasedIsNotSigned();
    }
  }

  /** The same for the dword-wise commit. */
  lemma CrashAtomicDword(c: Commit, k: nat)
    requires c.Sound() && c.erased && k <= |c.DwordScript()|
    requires SomeBankSigned(c.flash, c.g) && c.bank == ActiveBank(c.flash, c.g)
    ensures Atomic(c, Run(c.flash, c.DwordScript()[..k]))
  {
    DwordRefinesByte(c, k);
    CrashAtomic(c, ByteCount(c, k));
  }

  /** Up to the end of the copy the commit is crash atomic whether its partner was erased or not. */
  lemma AtomicWhileCopying(c: Commit, k: nat)
    requires c.Sound() && k <= Lead(c) + 2 * SHADOW_WORDS
    requires SomeBankSigned(c.flash, c.g) && c.bank == ActiveBank(c.flash, c.g)
    ensures Atomic(c, Run(c.flash, c.ByteScript()[..k]))
  {
    hide And, Or, Overlay, Signed, TopBit, Masked;
    BytePrefix(c, k);
    CopyKeepsSelection(c, k);
  }

  /** What is programmed over the spare bank comes out as one of the two complete images. */
  predicate Absorbs(c: Commit)
    requires c.Valid()
  {
    var image := Masked(c.Spare(), Published(c.Intended()));
    image == Published(c.Intended()) || image == Image(c.flash, c.g, c.bank)
  }

  /** The erase routine reports success when its retries run out.  Every prefix of such a commit is
      crash atomic exactly when programming over the spare bank yields a complete image. */
  lemma CrashAtomicUnerasedExactly(c: Commit)
    requires c.Valid() && !c.erased && SomeBankSigned(c.flash, c.g) && c.bank == ActiveBank(c.flash, c.g)
    ensures (forall k: nat :: k <= |c.ByteScript()| ==> Atomic(c, Run(c.flash, c.ByteScript()[..k]))) <==> Absorbs(c)
  {
    hide And, Or, Overlay, Signed, TopBit, Masked;
    var n := |c.ByteScript()|;
    Closing(c);
    BytePrefix(c, n);
    AbsorbedIsSigned(c);
    if Absorbs(c) {
      forall k: nat | k <= n ensures Atomic(c, Run(c.flash, c.ByteScript()[..k])) {
        if k <= 2 * SHADOW_WORDS {
          AtomicWhileCopying(c, k);
        } else {
          BytePrefix(c, k);
        }
      }
    } else {
      assert !Atomic(c, Run(c.flash, c.ByteScript()[..n]));
    }
  }

  /** A complete image carries a signature, so the spare bank's top bit was set. */
  lemma AbsorbedIsSigned(c: Commit)
    requires c.Sound() && BankSigned(c.flash, c.g, c.bank)
    ensures Absorbs(c) ==> TopBit(c.Spare()[SIG_WORD])
  {
    hide And, Or, Overlay, SectorStart, Signed, TopBit, Commit.Intended;
    var image := Masked(c.Spare(), Published(c.Intended()));
    PublishedSignature(c.Intended()[SIG_WORD]);
    SignedOver(c.Spare()[SIG_WORD], Published(c.Intended())[SIG_WORD]);
    assert image[SIG_WORD] == And(c.Spare()[SIG_WORD], Published(c.Intended())[SIG_WORD]);
    assert Image(c.flash, c.g, c.bank)[SIG_WORD] == c.flash[c.OldOffset() + SIG_WORD];
  }

  /** After a commit that ran to its end a bank is signed exactly when the signature word it wrote over
      still had its top bit. */
  lemma SignedAfterSuccessExactly(c: Commit)
    requires c.Sound()
    ensures SomeBankSigned(Run(c.flash, c.ByteScript()), c.g) <==> TopBit(c.Spare()[SIG_WORD])
  {
    hide And, Or, Overlay, Signed, TopBit, Masked;
    BytePrefix(c, |c.ByteScript()|);
    assert c.ByteScript()[..|c.ByteScript()|] == c.ByteScript();
    Closing(c);
  }

  /** Word i of both banks once a commit over an erased bank is whole.  The other bank holds the pending word or
      that of the old bank, and bits 15:14 of its signature word are 10b; of the old bank only the upper byte of
      the signature word is cleared. */
  predicate Committed(c: Commit, now: seq<Word>, i: nat)
    requires c.Valid() && |now| == |c.flash| && i < 2048
  {
    var (from, to) := (if c.bank == 0 then 0 else c.g.bankWords, if c.bank == 0 then c.g.bankWords else 0);
    var seen := if c.shadow[i].modified then c.shadow[i].value else c.flash[from + i];
    && now[to + i] == (if i == 0x13 then And(Or(seen, Word(0xC000)), Word(0xBFFF)) else seen)
    && now[from + i] == (if i == 0x13 then And(c.flash[from + i], Word(0x00FF)) else c.flash[from + i])
  }

  lemma WholeCommit(c: Commit, i: nat)
    requires c.Sound() && c.erased && i < 2048
    ensures Committed(c, Run(c.flash, c.ByteScript()), i)
  {
    hide And, Or, Run, SectorStart, AndWord, Filled, FillWord, Commit.BothSigned, Commit.Finished, Commit.Spare, Commit.Base;
    BytePrefix(c, |c.ByteScript()|);
    assert c.ByteScript()[..|c.ByteScript()|] == c.ByteScript();
    OldBankKept(c);
    PublishedWord(c, i);
    OldBankWord(c, i);
    SpareErased(c, i);
    AndErased(Published(c.NewImage())[i]);
  }

  /** A commit that runs to its end publishes the intended image exactly when the spare bank still had
      every bit of it set. */
  lemma UnerasedCommitExactly(c: Commit)
    requires c.Sound()
    ensures Image(Run(c.flash, c.ByteScript()), c.g, Other(c.bank)) == Published(c.Intended())
       <==> OnlyClears(c.Spare(), Published(c.Intended()))
  {
    hide And, Or, Overlay, Signed, TopBit, Masked;
    BytePrefix(c, |c.ByteScript()|);
    assert c.ByteScript()[..|c.ByteScript()|] == c.ByteScript();
    Closing(c);
    MaskedIs(c.Spare(), Published(c.Intended()));
  }

  /** An image of one word throughout but for its signature. */
  function OneBank(word: Word, sig: Word): (r: seq<Word>)
    ensures |r| == SHADOW_WORDS
  {
    seq(SHADOW_WORDS, i => if i == SIG_WORD then sig else word)
  }

  function NothingPending(): (r: seq<ShadowWord>)
    ensures |r| == SHADOW_WORDS && Clean(r)
  {
    seq(SHADOW_WORDS, _ => ShadowWord(false, ERASED))
  }

  const SQUARE := Geometry(SHADOW_WORDS, SHADOW_WORDS)

  /** An instance: the spare bank holds the zeroed signature an earlier commit left there, its erase
      runs out of retries, and the commit that is reported as successful leaves no bank signed. */
  lemma UnerasedCommitLosesTheNvm()
    ensures exists c: Commit :: c.Valid() && !c.erased && c.bank == ActiveBank(c.flash, c.g) && SomeBankSigned(c.flash, c.g)
              && And(c.flash[c.NewOffset() + SIG_WORD], UNSIGN) == c.flash[c.NewOffset() + SIG_WORD]
              && !SomeBankSigned(Run(c.flash, c.ByteScript()), c.g)
  {
    hide And, Overlay, Signed, Run, TopBit, OneBank, SectorStart, SoundGeometry, TwoBanks;
    var flash := TwoBanks();
    var c := Commit(flash, SQUARE, NothingPending(), 0, false);
    ZeroSignature();
    assert c.Spare()[SIG_WORD] == Word(0);
    SquareIsSound();
    SignedAfterSuccessExactly(c);
  }

  /** A signed bank of ones, and one whose signature has been zeroed. */
  function TwoBanks(): (r: seq<Word>)
    ensures |r| == 2 * SHADOW_WORDS && r[SIG_WORD] == Word(0x8000) && r[SHADOW_WORDS + SIG_WORD] == Word(0)
  {
    OneBank(ERASED, Word(0x8000)) + OneBank(ERASED, Word(0))
  }

  lemma ZeroSignature()
    ensures And(Word(0), UNSIGN) == Word(0) && !TopBit(Word(0)) && Signed(Word(0x8000))
  {
  }

  /** Bank detection that fails to read falls back to bank 0.  The commit is crash atomic exactly
      when the bank it took is the active one: otherwise its very first cycle erases the only
      signed bank. */
  lemma CrashAtomicExactly(c: Commit)
    requires c.Sound() && c.erased && SomeBankSigned(c.flash, c.g)
    requires c.bank == 0 || c.bank == ActiveBank(c.flash, c.g)
    ensures (forall k: nat :: k <= |c.ByteScript()| ==> Atomic(c, Run(c.flash, c.ByteScript()[..k])))
       <==> c.bank == ActiveBank(c.flash, c.g)
  {
    hide And, Or, Overlay, Signed;
    if c.bank == ActiveBank(c.flash, c.g) {
      forall k: nat | k <= |c.ByteScript()| ensures Atomic(c, Run(c.flash, c.ByteScript()[..k])) {
        CrashAtomic(c, k);
      }
    } else {
      EraseUnsigns(c);
      assert !Atomic(c, Run(c.flash, c.ByteScript()[..1]));
    }
  }

  /** The erase of the only signed bank. */
  lemma EraseUnsigns(c: Commit)
    requires c.Sound() && c.erased && !BankSigned(c.flash, c.g, c.bank)
    ensures !SomeBankSigned(Run(c.flash, c.ByteScript()[..1]), c.g)
  {
    hide And, Or, Overlay, Signed;
    BytePrefix(c, 1);
    CopyStatesPrepare(c, 1);
    PreparingKeepsOldBank(c, ByteState(c, 1));
    SpareErased(c, SIG_WORD);
    ErasedIsNotSigned();
  }

  lemma SquareIsSound()
    ensures SoundGeometry(SQUARE)
  {
    AlignedIsSound(SQUARE);
  }

  /** An instance: bank 1 active, detection fell back to bank 0, and one cycle later no bank is signed. */
  lemma DetectionFailureLosesTheNvm()
    ensures exists c: Commit :: c.Sound() && c.erased && SomeBankSigned(c.flash, c.g) && c.bank == 0
              && !SomeBankSigned(Run(c.flash, c.ByteScript()[..1]), c.g)
  {
    var c := Commit(OneBank(ERASED, ERASED) + OneBank(ERASED, Word(0x8000)), SQUARE, NothingPending(), 0, true);
    SquareIsSound();
    assert c.flash[SIG_WORD] == ERASED && c.flash[SHADOW_WORDS + SIG_WORD] == Word(0x8000);
    assert BankSigned(c.flash, c.g, 1) && !BankSigned(c.flash, c.g, 0);
    EraseUnsigns(c);
  }

  // ------------------------------------------------------------ the logical view

  /** Every word that is not pending keeps its bits when programmed over the spare bank. */
  predicate CoversUnmodified(c: Commit)
    requires c.Valid()
  {
    forall i :: 0 <= i < SHADOW_WORDS && !c.shadow[i].modified ==> Within(c.Intended()[i], c.Spare()[i])
  }

  /** When a commit stopped after k cycles leaves what readers see.  Up to the end of the copy it always
      does.  Once the new bank is signed, and again once the old one is not, it depends on the bits the
      spare bank had before the copy. */
  predicate KeepsView(c: Commit, k: nat)
    requires c.Valid()
  {
    && (k == Lead(c) + 2 * SHADOW_WORDS + 1 ==> c.bank == 0 || !TopBit(c.Spare()[SIG_WORD]) || CoversUnmodified(c))
    && (k == Lead(c) + 2 * SHADOW_WORDS + 2 ==> OnlyClears(c.Spare(), c.Intended()))
  }

  /** An erased spare bank has all bits. */
  lemma ErasedKeepsView(c: Commit, k: nat)
    requires c.Sound() && c.erased
    ensures KeepsView(c, k)
  {
    hide And, Or, Overlay, TopBit;
    forall i | 0 <= i < SHADOW_WORDS ensures Within(c.Intended()[i], c.Spare()[i]) {
      SpareErased(c, i);
      AndErased(c.Intended()[i]);
    }
  }

  /** A spare bank that holds every bit of the image keeps the view at every stop. */
  lemma CoveredKeepsView(c: Commit, k: nat)
    requires c.Valid() && OnlyClears(c.Spare(), c.Intended())
    ensures KeepsView(c, k)
  {
    hide And;
  }

  lemma SignedViewPublishes(image: seq<Word>)
    requires |image| == SHADOW_WORDS && Signed(image[SIG_WORD])
    ensures Published(image) == image
  {
    PublishedSignature(image[SIG_WORD]);
  }

  /** Between the last two cycles: the view is the old one exactly where the words that are not pending
      survived, unless the old bank is still the one selected. */
  lemma ViewBeforeTheLast(c: Commit)
    requires c.Sound() && SomeBankSigned(c.flash, c.g) && c.bank == ActiveBank(c.flash, c.g)
    ensures View(c.BothSigned(), c.g, c.shadow) == View(c.flash, c.g, c.shadow)
       <==> c.bank == 0 || !TopBit(c.Spare()[SIG_WORD]) || CoversUnmodified(c)
    ensures SomeBankSigned(c.BothSigned(), c.g)
  {
    hide And, Or, Signed, TopBit, Overlay, Masked;
    Closing(c);
    if c.bank == 1 && TopBit(c.Spare()[SIG_WORD]) {
      ViewOverMasked(c);
    }
  }

  lemma ViewOverMasked(c: Commit)
    requires c.Valid() && BankSigned(c.flash, c.g, c.bank)
    ensures Overlay(Masked(c.Spare(), Published(c.Intended())), c.shadow) == c.Intended() <==> CoversUnmodified(c)
  {
    hide And, Or, SectorStart, Signed;
    var target, spare, image := Published(c.Intended()), c.Spare(), c.Intended();
    var over := Overlay(Masked(spare, target), c.shadow);
    forall i | 0 <= i < SHADOW_WORDS
      ensures over[i] == image[i] <==> c.shadow[i].modified || Within(image[i], spare[i])
    {
      if i == SIG_WORD && !c.shadow[i].modified {
        PublishedSignature(image[i]);
      }
    }
    assert over == image <==> forall i :: 0 <= i < SHADOW_WORDS ==> over[i] == image[i];
  }

  /** At the end, with an empty shadow RAM: exactly where the whole image survived. */
  lemma ViewAtTheEnd(c: Commit, cleared: seq<ShadowWord>)
    requires c.Sound() && Clean(cleared) && Signed(c.Intended()[SIG_WORD])
    ensures View(c.Finished(), c.g, cleared) == c.Intended() <==> OnlyClears(c.Spare(), c.Intended())
    ensures View(c.Finished(), c.g, cleared) == c.Intended() ==> SomeBankSigned(c.Finished(), c.g)
  {
    hide And, Or, Signed, TopBit, SectorStart, Masked, Commit.Spare, Commit.Finished, Commit.Intended;
    Closing(c);
    var image, now := c.Intended(), Image(c.Finished(), c.g, ActiveBank(c.Finished(), c.g));
    SignedViewPublishes(image);
    MaskedIs(c.Spare(), image);
    assert Overlay(now, cleared) == now;
    SignedOver(c.Spare()[SIG_WORD], image[SIG_WORD]);
    assert now[SIG_WORD] == c.Finished()[BankOffset(c.g, ActiveBank(c.Finished(), c.g)) + SIG_WORD];
  }

  /** On every way out short of success the shadow RAM is kept.  Readers see what they saw exactly when
      KeepsView says so: always before the last two cycles, and always over an erased bank. */
  lemma ViewAfterFailure(c: Commit, k: nat)
    requires c.Sound() && k < |c.ByteScript()|
    requires SomeBankSigned(c.flash, c.g) && c.bank == ActiveBank(c.flash, c.g)
    ensures View(Run(c.flash, c.ByteScript()[..k]), c.g, c.shadow) == View(c.flash, c.g, c.shadow) <==> KeepsView(c, k)
    ensures SomeBankSigned(Run(c.flash, c.ByteScript()[..k]), c.g)
  {
    hide And, Or, Signed, TopBit, Overlay;
    BytePrefix(c, k);
    if k <= Lead(c) + 2 * SHADOW_WORDS {
      CopyKeepsSelection(c, k);
    } else {
      ViewBeforeTheLast(c);
    }
  }

  /** On success the shadow RAM is emptied; over an erased bank readers see what they saw exactly when
      the signature word they saw carried 10b. */
  lemma ViewAfterSuccess(c: Commit, cleared: seq<ShadowWord>)
    requires c.Sound() && c.erased && Clean(cleared) && c.bank == ActiveBank(c.flash, c.g)
    ensures View(Run(c.flash, c.ByteScript()), c.g, cleared) == View(c.flash, c.g, c.shadow)
       <==> Signed(View(c.flash, c.g, c.shadow)[SIG_WORD])
    ensures ActiveBank(Run(c.flash, c.ByteScript()), c.g) == Other(c.bank)
    ensures View(Run(c.flash, c.ByteScript()), c.g, cleared) == Published(View(c.flash, c.g, c.shadow))
  {
    hide And, Or, TopBit, Masked, SectorStart;
    BytePrefix(c, |c.ByteScript()|);
    assert c.ByteScript()[..|c.ByteScript()|] == c.ByteScript();
    Closing(c);
    var image := View(c.flash, c.g, c.shadow);
    MaskedErased(c, Published(image));
    SpareErased(c, SIG_WORD);
    ErasedIsNotSigned();
    PublishedSignature(image[SIG_WORD]);
    assert Overlay(Published(image), cleared) == Published(image);
    if Signed(image[SIG_WORD]) {
      SignedViewPublishes(image);
    }
  }

  /** Every way out in one statement, erased partner or not: readers of a signed view see what they saw
      exactly when KeepsView says so, and then a bank is signed. */
  lemma ViewExactly(c: Commit, k: nat, left: seq<ShadowWord>)
    requires c.Sound() && k <= |c.ByteScript()| && SomeBankSigned(c.flash, c.g) && c.bank == ActiveBank(c.flash, c.g)
    requires Signed(View(c.flash, c.g, c.shadow)[SIG_WORD])
    requires if k == |c.ByteScript()| then Clean(left) else left == c.shadow
    ensures View(Run(c.flash, c.ByteScript()[..k]), c.g, left) == View(c.flash, c.g, c.shadow) <==> KeepsView(c, k)
    ensures KeepsView(c, k) ==> SomeBankSigned(Run(c.flash, c.ByteScript()[..k]), c.g)
  {
    hide And, Or, Signed, TopBit, Overlay, Masked;
    if k < |c.ByteScript()| {
      ViewAfterFailure(c, k);
    } else {
      BytePrefix(c, k);
      ViewAtTheEnd(c, left);
    }
  }

  // ------------------------------------------------------------ the geometry

  /** A commit that takes the active bank and whose erase takes effect. */
  predicate Begins(c: Commit, g: Geometry) {
    c.Valid() && c.g == g && c.erased && SomeBankSigned(c.flash, g) && c.bank == ActiveBank(c.flash, g)
  }

  ghost predicate AllAtomic(c: Commit)
    requires c.Valid()
  {
    forall k: nat :: k <= |c.ByteScript()| ==> Atomic(c, Run(c.flash, c.ByteScript()[..k]))
  }

  /** In banks too small for an image the images overlap: the erase for bank 1, the first cycle of a commit
      from bank 0, leaves bank 0's image as it was exactly when that had ones wherever the sector reaches. */
  lemma SmallBanksTear(g: Geometry, flash: seq<Word>)
    requires 0 < g.bankWords < SHADOW_WORDS && g.sectorWords > 0 && g.bankWords + SHADOW_WORDS <= |flash|
    ensures var start := SectorStart(g, g.bankWords);
      && Apply(flash, Erase(start, g.sectorWords))[g.bankWords] == ERASED
      && (Apply(flash, Erase(start, g.sectorWords))[..SHADOW_WORDS] == flash[..SHADOW_WORDS]
          <==> forall a :: start <= a < start + g.sectorWords && a < SHADOW_WORDS ==> flash[a] == ERASED)
  {
    hide SectorStart;
    var start := SectorStart(g, g.bankWords);
    var now := Apply(flash, Erase(start, g.sectorWords));
    forall a | start <= a < start + g.sectorWords && a < SHADOW_WORDS && now[..SHADOW_WORDS] == flash[..SHADOW_WORDS]
      ensures flash[a] == ERASED
    {
      assert now[..SHADOW_WORDS][a] == flash[..SHADOW_WORDS][a];
    }
  }

  /** Commits are crash atomic on all contents exactly when the erase of a bank reaches all of its image
      and nothing of the other's. */
  lemma GeometryExactly(g: Geometry)
    requires ValidGeometry(g)
    ensures (forall c: Commit :: Begins(c, g) ==> AllAtomic(c)) <==> SoundGeometry(g)
  {
    hide ErasesOnly, Atomic;
    if SoundGeometry(g) {
      forall c: Commit | Begins(c, g) ensures AllAtomic(c) {
        forall k: nat | k <= |c.ByteScript()| ensures Atomic(c, Run(c.flash, c.ByteScript()[..k])) {
          CrashAtomic(c, k);
        }
      }
    } else {
      var c := TornCommit(g, if ErasesOnly(g, 0) then 1 else 0);
    }
  }

  lemma TornCommit(g: Geometry, bank: nat) returns (c: Commit)
    requires ValidGeometry(g) && bank < 2 && !ErasesOnly(g, bank)
    ensures Begins(c, g) && !AllAtomic(c)
  {
    hide SectorStart, AllAtomic;
    if SectorStart(g, BankOffset(g, bank)) + g.sectorWords < BankOffset(g, bank) + SHADOW_WORDS {
      c := ShortErase(g, bank);
    } else {
      c := WideErase(g, bank);
    }
  }

  /** An erase that falls short of its bank tears some commit. */
  lemma ShortErase(g: Geometry, bank: nat) returns (c: Commit)
    requires ValidGeometry(g) && bank < 2
    requires SectorStart(g, BankOffset(g, bank)) + g.sectorWords < BankOffset(g, bank) + SHADOW_WORDS
    ensures Begins(c, g) && !AllAtomic(c)
  {
    hide And, Or, SectorStart, Signed, AllAtomic, Published, EraseRange;
    SignIsSigned();
    c := Idle(g, Other(bank), ERASED, SIGN, Word(0));
    var j := SectorStart(g, BankOffset(g, bank)) + g.sectorWords - BankOffset(g, bank);
    BaseAt(c, BankOffset(g, bank) + j);
    assert Image(c.flash, g, bank)[j] == Word(0);
    MissedWordTears(c, j);
  }

  /** An erase that reaches into the other bank tears some commit. */
  lemma WideErase(g: Geometry, bank: nat) returns (c: Commit)
    requires ValidGeometry(g) && bank < 2
    requires var start, other := SectorStart(g, BankOffset(g, bank)), BankOffset(g, Other(bank));
      start < other + SHADOW_WORDS && other < start + g.sectorWords
    ensures Begins(c, g) && !AllAtomic(c)
  {
    hide And, Or, SectorStart, Signed, AllAtomic, Published, EraseRange;
    var start, other := SectorStart(g, BankOffset(g, bank)), BankOffset(g, Other(bank));
    SignIsSigned();
    ErasedIsNotSigned();
    c := Idle(g, Other(bank), Word(0), Word(0x8000), Word(0));
    var j := (if start < other then other else start) - other;
    BaseAt(c, other + j);
    BaseAt(c, BankOffset(g, bank) + SIG_WORD);
    assert Image(c.flash, g, bank)[SIG_WORD] == Word(0);
    HitWordTears(c, j);
  }

  /** A commit with nothing pending: the active bank of one word but for its signature, the other of
      another word. */
  lemma Idle(g: Geometry, bank: nat, word: Word, sig: Word, rest: Word) returns (c: Commit)
    requires ValidGeometry(g) && bank < 2 && Signed(sig) && !Signed(rest) && And(Or(sig, SIG_MASK), SIGN) == sig
    ensures c.bank == bank && Begins(c, g) && Clean(c.shadow)
    ensures Image(c.flash, g, bank) == Published(c.Intended()) == OneBank(word, sig)
    ensures Image(c.flash, g, Other(bank)) == OneBank(rest, rest)
  {
    hide SectorStart, Signed, Uniform;
    c := Commit(Uniform(g, bank, word, sig, rest), g, NothingPending(), bank, true);
    UniformImages(g, bank, word, sig, rest);
    assert Image(c.flash, g, bank)[SIG_WORD] == sig && Image(c.flash, g, Other(bank))[SIG_WORD] == rest;
    assert c.Intended() == OneBank(word, sig);
    assert Published(OneBank(word, sig)) == OneBank(word, sig);
  }

  /** One bank filled with a word but for its signature, the other with another word. */
  function Uniform(g: Geometry, bank: nat, word: Word, sig: Word, rest: Word): (r: seq<Word>)
    requires ValidGeometry(g)
    ensures |r| == 2 * g.bankWords
  {
    seq(2 * g.bankWords, a =>
      if BankOffset(g, bank) <= a < BankOffset(g, bank) + g.bankWords
      then if a == BankOffset(g, bank) + SIG_WORD then sig else word
      else rest)
  }

  lemma UniformImages(g: Geometry, bank: nat, word: Word, sig: Word, rest: Word)
    requires ValidGeometry(g) && bank < 2
    ensures Image(Uniform(g, bank, word, sig, rest), g, bank) == OneBank(word, sig)
    ensures Image(Uniform(g, bank, word, sig, rest), g, Other(bank)) == OneBank(rest, rest)
  {
  }

  lemma SignIsSigned()
    ensures Signed(SIGN) && Signed(Word(0x8000)) && !Signed(Word(0)) && SIGN != Word(0)
    ensures And(Or(SIGN, SIG_MASK), SIGN) == SIGN && And(Or(Word(0x8000), SIG_MASK), SIGN) == Word(0x8000)
    ensures forall w :: And(Word(0), w) == Word(0)
  {
  }

  /** A zero word that the erase leaves stays zero, whatever is programmed. */
  lemma MissedWordTears(c: Commit, j: nat)
    requires Begins(c, c.g) && j < SHADOW_WORDS && Clean(c.shadow)
    requires Image(c.flash, c.g, c.bank) == Published(c.Intended())
    requires c.Spare()[j] == Word(0) && Image(c.flash, c.g, c.bank)[j] != Word(0)
    ensures !AllAtomic(c)
  {
    hide And, Or, SectorStart, Signed, Overlay, Run, Commit.Finished, Commit.NewImage;
    var n := |c.ByteScript()|;
    BytePrefix(c, n);
    ZeroStays(c, j);
    assert !Atomic(c, Run(c.flash, c.ByteScript()[..n]));
  }

  lemma ZeroStays(c: Commit, j: nat)
    requires c.Valid() && j < SHADOW_WORDS && c.Spare()[j] == Word(0)
    ensures Image(c.Finished(), c.g, Other(c.bank))[j] == Word(0)
    ensures !Signed(c.Finished()[c.OldOffset() + SIG_WORD])
  {
    hide And, Or, SectorStart, Signed, Overlay, Filled, Published, Commit.BothSigned;
    PublishedWord(c, j);
    SignIsSigned();
    ClearedSignature(c.BothSigned()[c.OldOffset() + SIG_WORD]);
  }

  /** A zero word of the active bank that the erase sets to ones, or its signature gone. */
  lemma HitWordTears(c: Commit, j: nat)
    requires Begins(c, c.g) && j < SHADOW_WORDS && Clean(c.shadow)
    requires Image(c.flash, c.g, c.bank) == Published(c.Intended())
    requires c.Base()[c.OldOffset() + j] == ERASED && Image(c.flash, c.g, c.bank)[j] != ERASED
    requires !Signed(c.Spare()[SIG_WORD])
    ensures !AllAtomic(c)
  {
    hide And, Or, SectorStart, Signed, Overlay;
    BytePrefix(c, 1);
    ErasedIsNotSigned();
    var now := c.Copied(0);
    assert now == c.Base();
    assert Image(now, c.g, c.bank)[j] == ERASED;
    assert !BankSigned(now, c.g, Other(c.bank));
    assert !Atomic(c, Run(c.flash, c.ByteScript()[..1]));
  }
}
