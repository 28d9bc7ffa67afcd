/** How a packet is cut into pieces that each lie within one page, and mapped page by page. */
module Segmentation {

  const PAGE_SIZE: nat := 4096

  /** A stretch of memory: a buffer of a packet, or a piece of one. */
  datatype Range = Range(addr: nat, len: nat)

  function TruncPage(a: int): (r: int)
    ensures a >= 0 ==> r >= 0
  {
    a - a % PAGE_SIZE
  }

  function NextPage(a: int): int { TruncPage(a) + PAGE_SIZE }

  function Min(a: int, b: int): int { if a < b then a else b }

  // ------------------------------------------------------------ the pieces of a packet

  /** The first piece of what is left of a buffer: at most a page, and not beyond the next page. */
  function Piece(d: nat, len: nat): (l: nat)
    requires len > 0
    ensures 0 < l <= len && TruncPage(d) == TruncPage(d + l - 1)
    ensures l < len ==> (d + l) % PAGE_SIZE == 0
  {
    Min(NextPage(d), d + Min(len, PAGE_SIZE)) - d
  }

  function Split(d: nat, len: nat): (r: seq<Range>)
    decreases len
  {
    if len == 0 then []
    else [Range(d, Piece(d, len))] + Split(d + Piece(d, len), len - Piece(d, len))
  }

  lemma SplitStep(d: nat, len: nat)
    requires len > 0
    ensures Split(d, len) == [Range(d, Piece(d, len))] + Split(d + Piece(d, len), len - Piece(d, len))
    ensures Piece(d, len) == Min(NextPage(d), d + Min(len, PAGE_SIZE)) - d
  {
  }

  function Segments(chain: seq<Range>): (r: seq<Range>) {
    if chain == [] then [] else Segments(chain[..|chain| - 1]) + Split(chain[|chain| - 1].addr, chain[|chain| - 1].len)
  }

  predicate WithinPages(ranges: seq<Range>) {
    forall k :: 0 <= k < |ranges| ==> ranges[k].len > 0 && TruncPage(ranges[k].addr) == TruncPage(ranges[k].addr + ranges[k].len - 1)
  }

  lemma {:induction false} SplitWithin(d: nat, len: nat)
    ensures WithinPages(Split(d, len))
    decreases len
  {
    if len > 0 {
      SplitWithin(d + Piece(d, len), len - Piece(d, len));
    }
  }

  /** Each piece is non-empty and lies within one page. */
  lemma {:induction false} SegmentsWithin(chain: seq<Range>)
    ensures WithinPages(Segments(chain))
  {
    hide Split, TruncPage;
    if chain != [] {
      SegmentsWithin(chain[..|chain| - 1]);
      SplitWithin(chain[|chain| - 1].addr, chain[|chain| - 1].len);
    }
  }

  /** A packet of one buffer within one page is not split. */
  predicate OnePage(chain: seq<Range>) {
    |chain| == 1 && TruncPage(chain[0].addr) == TruncPage(chain[0].addr + chain[0].len - 1)
  }

  function Wanted(chain: seq<Range>): seq<Range> { if OnePage(chain) then chain else Segments(chain) }

  predicate Filled(chain: seq<Range>) { forall k :: 0 <= k < |chain| ==> chain[k].len > 0 }

  /** For packets of non-empty buffers the shortcut makes no difference. */
  lemma ShortcutAgrees(chain: seq<Range>)
    requires Filled(chain)
    ensures Wanted(chain) == Segments(chain)
  {
    if OnePage(chain) {
      var b := chain[0];
      assert chain[..0] == [] && chain == [b];
      assert Piece(b.addr, b.len) == b.len;
      assert Split(b.addr + b.len, 0) == [];
    }
  }

  /** A piece can only be empty when a lone empty buffer does not start a page. */
  lemma EmptyPieceExactly(chain: seq<Range>)
    ensures (exists k :: 0 <= k < |Wanted(chain)| && Wanted(chain)[k].len == 0)
            <==> |chain| == 1 && chain[0].len == 0 && chain[0].addr % PAGE_SIZE != 0
  {
    SegmentsWithin(chain);
    if |chain| == 1 && chain[0].len == 0 {
      var d := chain[0].addr;
      assert chain[..0] == [] && Split(d, 0) == [] && Segments(chain) == [];
      assert TruncPage(d) == TruncPage(d - 1) <==> d % PAGE_SIZE != 0;
      if OnePage(chain) {
        assert Wanted(chain)[0].len == 0;
      }
    }
  }

  /** An empty buffer at address 1 is a piece of its own; at the start of a page it is none. */
  lemma EmptyPieceTaken()
    ensures Wanted([Range(1, 0)]) == [Range(1, 0)] && Wanted([Range(PAGE_SIZE, 0)]) == []
  {
    var lone := [Range(PAGE_SIZE, 0)];
    assert TruncPage(PAGE_SIZE) == PAGE_SIZE && TruncPage(PAGE_SIZE - 1) == 0;
    assert lone[..0] == [] && Segments([]) == [] && Split(PAGE_SIZE, 0) == [];
    assert Segments(lone) == Segments(lone[..0]) + Split(PAGE_SIZE, 0);
  }

  // ------------------------------------------------------------ the bytes of a packet

  function Bytes(r: Range): (s: seq<nat>)
    ensures |s| == r.len
  {
    seq(r.len, i requires 0 <= i < r.len => r.addr + i)
  }

  function AllBytes(ranges: seq<Range>): seq<nat> {
    if ranges == [] then [] else AllBytes(ranges[..|ranges| - 1]) + Bytes(ranges[|ranges| - 1])
  }

  lemma {:induction false} BytesConcat(a: seq<Range>, b: seq<Range>)
    ensures AllBytes(a + b) == AllBytes(a) + AllBytes(b)
  {
    hide Bytes;
    if b == [] {
      assert a + b == a;
    } else {
      var n := |b| - 1;
      assert (a + b)[..|a| + n] == a + b[..n];
      BytesConcat(a, b[..n]);
    }
  }

  lemma BytesOne(r: Range)
    ensures AllBytes([r]) == Bytes(r)
  {
    assert [r][..0] == [];
    assert AllBytes([r]) == [] + Bytes(r);
  }

  lemma {:induction false} SplitBytes(d: nat, len: nat)
    ensures AllBytes(Split(d, len)) == Bytes(Range(d, len))
    decreases len
  {
    if len == 0 {
      assert AllBytes([]) == [];
    } else {
      hide AllBytes, Bytes, Piece, Split, TruncPage, NextPage, Min;
      SplitStep(d, len);
      var l := Piece(d, len);
      BytesConcat([Range(d, l)], Split(d + l, len - l));
      BytesOne(Range(d, l));
      SplitBytes(d + l, len - l);
      BytesCut(d, len, l);
    }
  }

  lemma BytesCut(d: nat, len: nat, l: nat)
    requires l <= len
    ensures Bytes(Range(d, len)) == Bytes(Range(d, l)) + Bytes(Range(d + l, len - l))
  {
  }

  /** The pieces are the bytes of the packet, all of them and in order. */
  lemma {:induction false} SegmentsKeepBytes(chain: seq<Range>)
    ensures AllBytes(Segments(chain)) == AllBytes(chain)
  {
    if chain != [] {
      var n := |chain| - 1;
      SegmentsKeepBytes(chain[..n]);
      BytesConcat(Segments(chain[..n]), Split(chain[n].addr, chain[n].len));
      SplitBytes(chain[n].addr, chain[n].len);
    }
  }

  // ------------------------------------------------------------ no fewer pieces would do

  /** Pages a stretch touches. */
  function Pages(d: nat, len: nat): nat { if len == 0 then 0 else (d + len - 1) / PAGE_SIZE - d / PAGE_SIZE + 1 }

  lemma PagesAfter(d: nat, len: nat)
    requires len > 0
    ensures Pages(d + Piece(d, len), len - Piece(d, len)) == Pages(d, len) - 1
  {
  }

  lemma {:induction false} SplitCount(d: nat, len: nat)
    ensures |Split(d, len)| == Pages(d, len)
    decreases len
  {
    if len > 0 {
      PagesAfter(d, len);
      SplitCount(d + Piece(d, len), len - Piece(d, len));
    }
  }

  lemma FirstBytes(ranges: seq<Range>)
    requires ranges != []
    ensures AllBytes(ranges) == Bytes(ranges[0]) + AllBytes(ranges[1..])
  {
    BytesConcat([ranges[0]], ranges[1..]);
    BytesOne(ranges[0]);
    assert [ranges[0]] + ranges[1..] == ranges;
  }

  lemma {:induction false} FewestPages(d: nat, len: nat, other: seq<Range>)
    requires WithinPages(other) && AllBytes(other) == Bytes(Range(d, len))
    ensures Pages(d, len) <= |other|
    decreases |other|
  {
    if len > 0 {
      hide Bytes, Pages, TruncPage, NextPage, AllBytes, WithinPages;
      SomePieces(other);
      FirstWithin(other);
      FirstBytes(other);
      var r, rest := other[0], other[1..];
      FirstPiece(d, len, r, AllBytes(rest));
      FewestPages(d + r.len, len - r.len, rest);
      PagesRest(d, len, r.len);
    }
  }

  /** Whatever else covers a buffer with pieces within pages takes at least as many. */
  lemma Fewest(d: nat, len: nat, other: seq<Range>)
    requires WithinPages(other) && AllBytes(other) == Bytes(Range(d, len))
    ensures |Split(d, len)| <= |other|
  {
    hide Split, Bytes, Pages, TruncPage, AllBytes;
    SplitCount(d, len);
    FewestPages(d, len, other);
  }

  lemma FirstWithin(ranges: seq<Range>)
    requires WithinPages(ranges) && ranges != []
    ensures ranges[0].len > 0 && TruncPage(ranges[0].addr) == TruncPage(ranges[0].addr + ranges[0].len - 1)
    ensures WithinPages(ranges[1..])
  {
    hide TruncPage;
  }

  lemma SomePieces(ranges: seq<Range>)
    ensures |AllBytes(ranges)| > 0 ==> ranges != []
  {
  }

  lemma FirstPiece(d: nat, len: nat, r: Range, rest: seq<nat>)
    requires r.len > 0 && Bytes(Range(d, len)) == Bytes(r) + rest
    ensures r.addr == d && r.len <= len && rest == Bytes(Range(d + r.len, len - r.len))
  {
    var whole := Bytes(Range(d, len));
    assert |whole| == r.len + |rest|;
    assert whole[0] == Bytes(r)[0] == r.addr;
    forall i | 0 <= i < |rest| ensures rest[i] == d + r.len + i {
      assert whole[r.len + i] == rest[i];
    }
  }

  lemma PagesRest(d: nat, len: nat, l: nat)
    requires 0 < l <= len && TruncPage(d) == TruncPage(d + l - 1)
    ensures Pages(d, len) <= Pages(d + l, len - l) + 1
  {
  }

  /** A packet takes as many pieces as its buffers touch pages. */
  function PagesOf(chain: seq<Range>): nat {
    if chain == [] then 0 else PagesOf(chain[..|chain| - 1]) + Pages(chain[|chain| - 1].addr, chain[|chain| - 1].len)
  }

  lemma {:induction false} SegmentCount(chain: seq<Range>)
    ensures |Segments(chain)| == PagesOf(chain)
  {
    if chain != [] {
      SegmentCount(chain[..|chain| - 1]);
      SplitCount(chain[|chain| - 1].addr, chain[|chain| - 1].len);
    }
  }

  // ------------------------------------------------------------ where the device finds the bytes

  /** The physical address of a byte, if phys gives that of a page. */
  function Translate(phys: nat -> nat, a: nat): nat { phys(TruncPage(a)) + a % PAGE_SIZE }

  /** What the mapping makes of a piece. */
  function Located(phys: nat -> nat, r: Range): Range { Range(Translate(phys, r.addr), r.len) }

  function LocatedAll(phys: nat -> nat, ranges: seq<Range>): (r: seq<Range>)
    ensures |r| == |ranges|
  {
    seq(|ranges|, k requires 0 <= k < |ranges| => Located(phys, ranges[k]))
  }

  function TranslateAll(phys: nat -> nat, bytes: seq<nat>): (r: seq<nat>)
    ensures |r| == |bytes|
  {
    seq(|bytes|, k requires 0 <= k < |bytes| => Translate(phys, bytes[k]))
  }

  lemma PieceTranslated(phys: nat -> nat, r: Range)
    requires r.len > 0 && TruncPage(r.addr) == TruncPage(r.addr + r.len - 1)
    ensures Bytes(Located(phys, r)) == TranslateAll(phys, Bytes(r))
  {
    var moved, expected := Bytes(Located(phys, r)), TranslateAll(phys, Bytes(r));
    forall i | 0 <= i < r.len ensures moved[i] == expected[i] {
      SamePage(r.addr, r.len - 1, i);
    }
  }

  lemma SamePage(a: nat, last: nat, i: nat)
    requires i <= last && TruncPage(a) == TruncPage(a + last)
    ensures TruncPage(a + i) == TruncPage(a) && (a + i) % PAGE_SIZE == a % PAGE_SIZE + i
  {
  }

  /** The mapped pieces hold, byte for byte, the physical addresses of the packet's bytes. */
  lemma {:induction false} PiecesTranslated(phys: nat -> nat, ranges: seq<Range>)
    requires WithinPages(ranges)
    ensures AllBytes(LocatedAll(phys, ranges)) == TranslateAll(phys, AllBytes(ranges))
  {
    if ranges != [] {
      hide TruncPage, Translate, Bytes, TranslateAll, Located, LocatedAll, AllBytes, WithinPages;
      WithinParts(ranges);
      var n := |ranges| - 1;
      PiecesTranslated(phys, ranges[..n]);
      PieceTranslated(phys, ranges[n]);
      LocatedMore(phys, ranges[..n], ranges[n]);
      BytesMore(ranges[..n], ranges[n]);
      BytesMore(LocatedAll(phys, ranges[..n]), Located(phys, ranges[n]));
      assert ranges == ranges[..n] + [ranges[n]];
      TranslateConcat(phys, AllBytes(ranges[..n]), Bytes(ranges[n]));
    } else {
      NothingTranslated(phys);
    }
  }

  lemma WithinParts(ranges: seq<Range>)
    requires WithinPages(ranges) && ranges != []
    ensures var r := ranges[|ranges| - 1];
      WithinPages(ranges[..|ranges| - 1]) && r.len > 0 && TruncPage(r.addr) == TruncPage(r.addr + r.len - 1)
  {
    hide TruncPage;
  }

  lemma LocatedMore(phys: nat -> nat, ranges: seq<Range>, r: Range)
    ensures LocatedAll(phys, ranges + [r]) == LocatedAll(phys, ranges) + [Located(phys, r)]
  {
    hide Located;
  }

  lemma BytesMore(ranges: seq<Range>, r: Range)
    ensures AllBytes(ranges + [r]) == AllBytes(ranges) + Bytes(r)
  {
    hide Bytes;
    BytesConcat(ranges, [r]);
    BytesOne(r);
  }

  lemma TranslateConcat(phys: nat -> nat, a: seq<nat>, b: seq<nat>)
    ensures TranslateAll(phys, a + b) == TranslateAll(phys, a) + TranslateAll(phys, b)
  {
    hide Translate;
  }

  lemma NothingTranslated(phys: nat -> nat)
    ensures TranslateAll(phys, []) == []
  {
  }

  // ------------------------------------------------------------ the loops

  /** Cuts a packet into pieces in the scratch table; 0 when it takes more than maxSegs. */
  method CutPacket(chain: seq<Range>, maxSegs: nat, scratch: array<Range>) returns (segIndex: nat)
    requires chain != [] && 0 < maxSegs <= scratch.Length
    modifies scratch
    ensures segIndex == if |Wanted(chain)| <= maxSegs then |Wanted(chain)| else 0
    ensures |Wanted(chain)| <= maxSegs ==> scratch[..segIndex] == Wanted(chain)
  {
    hide Segments, Split, TruncPage;
    segIndex := 0;
    if |chain| == 1 && TruncPage(chain[0].addr) == TruncPage(chain[0].addr + chain[0].len - 1) {
      scratch[0] := chain[0];
      return 1;
    }
    var m := 0;
    SegmentsStart(chain);
    while m < |chain|
      invariant m <= |chain| && segIndex <= maxSegs
      invariant scratch[..segIndex] == Segments(chain[..m])
    {
      SegmentsStep(chain, m);
      SegmentsGrow(chain, m + 1);
      var fits;
      fits, segIndex := CutBuffer(chain[m].addr, chain[m].len, maxSegs, scratch, segIndex);
      if !fits {
        return 0;
      }
      m := m + 1;
    }
    assert chain[..m] == chain;
  }

  /** Appends the pieces of a buffer to the table, if it has room for them. */
  method CutBuffer(addr: nat, length: nat, maxSegs: nat, scratch: array<Range>, used: nat) returns (fits: bool,
      segIndex: nat)
    requires used <= maxSegs <= scratch.Length
    modifies scratch
    ensures fits <==> used + |Split(addr, length)| <= maxSegs
    ensures segIndex <= maxSegs && (fits ==> scratch[..segIndex] == old(scratch[..used]) + Split(addr, length))
  {
    hide Split, Piece, TruncPage, NextPage;
    var d: nat, len: nat := addr, length;
    segIndex := used;
    ghost var whole := scratch[..used] + Split(d, len);
    while len > 0
      invariant used <= segIndex <= maxSegs
      invariant scratch[..segIndex] + Split(d, len) == whole
      decreases len
    {
      SplitStep(d, len);
      var l := Min(len, PAGE_SIZE);
      l := Min(NextPage(d), d + l) - d;
      ghost var (done, rest) := (scratch[..segIndex], Split(d + l, len - l));
      assert whole == (done + [Range(d, l)]) + rest;
      if segIndex >= maxSegs {
        return false, segIndex;
      }
      scratch[segIndex] := Range(d, l);
      assert scratch[..segIndex + 1] == done + [Range(d, l)];
      segIndex := segIndex + 1;
      d, len := d + l, len - l;
    }
    NoSplit(d);
    assert scratch[..segIndex] + [] == scratch[..segIndex];
    fits := true;
  }

  lemma LocatedLiterally(phys: nat -> nat, ranges: seq<Range>)
    ensures forall k :: 0 <= k < |ranges| ==>
      var a := ranges[k].addr;
      TruncPage(a) == a - a % 4096 && Located(phys, ranges[k]) == Range(phys(a - a % 4096) + a % 4096, ranges[k].len)
  {
  }

  lemma LocatedAt(phys: nat -> nat, r: Range)
    ensures Located(phys, r) == Range(phys(TruncPage(r.addr)) + r.addr % PAGE_SIZE, r.len)
  {
  }

  lemma NoSplit(d: nat)
    ensures Split(d, 0) == []
  {
  }

  lemma SegmentsStart(chain: seq<Range>)
    ensures Segments(chain[..0]) == []
  {
  }

  lemma SegmentsStep(chain: seq<Range>, m: nat)
    requires m < |chain|
    ensures Segments(chain[..m + 1]) == Segments(chain[..m]) + Split(chain[m].addr, chain[m].len)
  {
    assert chain[..m + 1][..m] == chain[..m];
  }

  lemma {:induction false} SegmentsGrow(chain: seq<Range>, m: nat)
    requires m <= |chain|
    ensures |Segments(chain[..m])| <= |Segments(chain)|
    decreases |chain|
  {
    if m < |chain| {
      SegmentsGrow(chain[..|chain| - 1], m);
      assert chain[..|chain| - 1][..m] == chain[..m];
    } else {
      assert chain[..m] == chain;
    }
  }

  /** Maps the pieces: each range of the table becomes the whole page of a piece, the piece keeps its
      offset, and the vector gets page base plus offset. */
  method MapPieces(scratch: array<Range>, segIndex: nat, table: array<Range>, at: nat, phys: nat -> nat,
      vector: array<Range>)
    requires segIndex <= scratch.Length && at + segIndex <= table.Length && segIndex <= vector.Length
    requires scratch != table && scratch != vector && table != vector
    modifies scratch, table, vector
    ensures vector[..segIndex] == LocatedAll(phys, old(scratch[..segIndex]))
    ensures forall k :: 0 <= k < segIndex ==> table[at + k] == Range(TruncPage(old(scratch[k].addr)), PAGE_SIZE)
    ensures table[..at] == old(table[..at]) && table[at + segIndex..] == old(table[at + segIndex..])
    ensures forall k :: 0 <= k < segIndex ==>
      var (addr, len) := (old(scratch[k].addr), old(scratch[k].len));
      && vector[k] == Range(phys(addr - addr % 4096) + addr % 4096, len)
      && table[at + k] == Range(addr - addr % 4096, 4096)
  {
    hide TruncPage, Located;
    ghost var pieces := scratch[..segIndex];
    LocatedLiterally(phys, pieces);
    TakePages(scratch, segIndex, table, at);
    FillVector(scratch, segIndex, table, at, phys, vector, pieces);
  }

  /** The pages of the pieces go into the table, and each piece keeps its offset in its page. */
  method TakePages(scratch: array<Range>, segIndex: nat, table: array<Range>, at: nat)
    requires segIndex <= scratch.Length && at + segIndex <= table.Length && scratch != table
    modifies scratch, table
    ensures forall k :: 0 <= k < segIndex ==> table[at + k] == Range(TruncPage(old(scratch[k].addr)), PAGE_SIZE)
    ensures forall k :: 0 <= k < segIndex ==> scratch[k] == Range(old(scratch[k].addr) % PAGE_SIZE, old(scratch[k].len))
    ensures forall k :: 0 <= k < table.Length && !(at <= k < at + segIndex) ==> table[k] == old(table[k])
  {
    hide TruncPage;
    var i := 0;
    while i < segIndex
      invariant i <= segIndex
      invariant forall k :: 0 <= k < i ==> table[at + k] == Range(TruncPage(old(scratch[k].addr)), PAGE_SIZE)
      invariant forall k :: 0 <= k < i ==> scratch[k] == Range(old(scratch[k].addr) % PAGE_SIZE, old(scratch[k].len))
      invariant forall k :: i <= k < segIndex ==> scratch[k] == old(scratch[k])
      invariant forall k :: 0 <= k < table.Length && !(at <= k < at + i) ==> table[k] == old(table[k])
    {
      table[at + i] := Range(TruncPage(scratch[i].addr), PAGE_SIZE);
      scratch[i] := Range(scratch[i].addr % PAGE_SIZE, scratch[i].len);
      i := i + 1;
    }
  }

  /** The vector gets the physical address of each page plus the piece's offset. */
  method FillVector(scratch: array<Range>, segIndex: nat, table: array<Range>, at: nat, phys: nat -> nat, vector: array<Range>,
      ghost pieces: seq<Range>)
    requires segIndex == |pieces| <= scratch.Length && at + segIndex <= table.Length && segIndex <= vector.Length
    requires scratch != vector && table != vector
    requires forall k :: 0 <= k < segIndex ==> table[at + k] == Range(TruncPage(pieces[k].addr), PAGE_SIZE)
    requires forall k :: 0 <= k < segIndex ==> scratch[k] == Range(pieces[k].addr % PAGE_SIZE, pieces[k].len)
    modifies vector
    ensures vector[..segIndex] == LocatedAll(phys, pieces)
  {
    hide TruncPage, Located;
    var i := 0;
    while i < segIndex
      invariant i <= segIndex && forall k :: 0 <= k < i ==> vector[k] == Located(phys, pieces[k])
    {
      assert table[at + i] == Range(TruncPage(pieces[i].addr), PAGE_SIZE);
      LocatedAt(phys, pieces[i]);
      vector[i] := Range(phys(table[at + i].addr) + scratch[i].addr, scratch[i].len);
      i := i + 1;
    }
  }
}
