/** Words written to a serial EEPROM bit by bit, and what a page-wrapping device makes of the bits. */
module Spi {
  import opened Bits

  const WRITE_OPCODE: nat := 0x02
  const STATUS_OPCODE: nat := 0x05
  const ENABLE_OPCODE: nat := 0x06
  const A8: nat := 0x08                     // bit of the write opcode that is address bit 8

  type Page = p: nat | p > 0 && p % 2 == 0 witness 32

  /** Address bits a command carries; with eight, the ninth is in the opcode. */
  type AddressBits = n: nat | n == 8 || n == 16 witness 16

  // ------------------------------------------------------------ numbers as bits

  /** The lowest n bits of a number, most significant first. */
  function BitsOf(v: nat, n: nat): (r: seq<bool>)
    ensures |r| == n
  {
    if n == 0 then [] else BitsOf(v / 2, n - 1) + [v % 2 == 1]
  }

  function Value(bits: seq<bool>): nat {
    if bits == [] then 0 else 2 * Value(bits[..|bits| - 1]) + if bits[|bits| - 1] then 1 else 0
  }

  lemma {:induction false} ValueOfBits(v: nat, n: nat)
    ensures Value(BitsOf(v, n)) == v % Pow2(n)
  {
    if n > 0 {
      ValueOfBits(v / 2, n - 1);
      assert BitsOf(v, n)[..n - 1] == BitsOf(v / 2, n - 1);
      HalfModulo(v, Pow2(n - 1));
    }
  }

  lemma {:induction false} BitsOfValue(bits: seq<bool>)
    ensures BitsOf(Value(bits), |bits|) == bits
  {
    if bits != [] {
      var n := |bits| - 1;
      BitsOfValue(bits[..n]);
      assert bits == bits[..n] + [bits[n]];
    }
  }

  /** A number's bits fall into those of its upper and of its lower part. */
  lemma {:induction false} BitsSplit(v: nat, a: nat, b: nat)
    ensures BitsOf(v, a + b) == BitsOf(Shr(v, b), a) + BitsOf(v, b)
  {
    if b == 0 {
      assert BitsOf(v, a) + [] == BitsOf(v, a);
    } else {
      BitsSplit(v / 2, a, b - 1);
      assert a + b - 1 == a + (b - 1);
      var upper, lower := BitsOf(Shr(v, b), a), BitsOf(v / 2, b - 1);
      assert upper + (lower + [v % 2 == 1]) == (upper + lower) + [v % 2 == 1];
    }
  }

  // ------------------------------------------------------------ the device

  /** The bytes in a stream of bits. */
  function BytesIn(bits: seq<bool>): (r: seq<nat>)
    ensures |r| == |bits| / 8
    decreases |bits|
  {
    if |bits| < 8 then [] else [Value(bits[..8])] + BytesIn(bits[8..])
  }

  /** Where byte k of a write to addr goes: beyond the end of the page it goes on at its start. */
  function Wrapped(size: nat, page: Page, addr: nat, k: nat): (r: nat)
    requires addr < size && size % page == 0
    ensures r < size
  {
    PageBounds(size, page, addr);
    ModuloBounds(addr % page + k, page);
    addr - addr % page + (addr % page + k) % page
  }

  function PageWrite(mem: seq<nat>, page: Page, addr: nat, bytes: seq<nat>): (r: seq<nat>)
    requires addr < |mem| && |mem| % page == 0
    ensures |r| == |mem|
    decreases |bytes|
  {
    if bytes == [] then mem
    else
      var k := |bytes| - 1;
      PageWrite(mem, page, addr, bytes[..k])[Wrapped(|mem|, page, addr, k) := bytes[k]]
  }

  lemma ModuloBounds(a: nat, m: nat)
    requires m > 0
    ensures 0 <= a % m < m
  {
  }

  lemma PageBounds(size: nat, page: nat, addr: nat)
    requires page > 0 && addr < size && size % page == 0
    ensures 0 <= addr - addr % page && addr - addr % page + page <= size
  {
    var q, n := addr / page, size / page;
    Division(addr, page);
    Division(size, page);
    Multiples(n, q, page);
    Multiples(q + 1, n, page);
    Distribute(q, page);
  }

  lemma Division(a: nat, m: nat)
    requires m > 0
    ensures a == (a / m) * m + a % m && 0 <= a % m < m
  {
  }

  lemma Distribute(q: nat, m: nat)
    ensures (q + 1) * m == q * m + m
  {
  }

  lemma Multiples(q: nat, n: nat, m: nat)
    ensures q <= n ==> q * m <= n * m
  {
  }

  /** Memories a device with so many address bits can have. */
  predicate Sized(size: nat, page: Page, bits: AddressBits) {
    size % page == 0 && if bits == 16 then size <= 0x10000 else size <= 0x200 && 0x100 % page == 0
  }

  /** A serial EEPROM.  It acts on a command when it is deselected. */
  class Eeprom {
    const page: Page
    const bits: AddressBits
    var mem: seq<nat>
    var enabled: bool
    var burst: seq<bool>

    ghost predicate Valid()
      reads this
    {
      Sized(|mem|, page, bits)
    }

    constructor (page: Page, bits: AddressBits, mem: seq<nat>)
      requires Sized(|mem|, page, bits)
      ensures Valid() && this.page == page && this.bits == bits && this.mem == mem && burst == [] && !enabled
    {
      this.page, this.bits, this.mem, enabled, burst := page, bits, mem, false, [];
    }

    /** One bit, taken on the rising clock. */
    method Clock(bit: bool)
      modifies this`burst
      ensures burst == old(burst) + [bit]
    {
      burst := burst + [bit];
    }

    /** The end of a command. */
    method Deselect()
      requires Valid()
      modifies this`mem, this`enabled, this`burst
      ensures Valid() && burst == [] && mem == After(old(mem), page, bits, old(enabled), old(burst))
      ensures enabled == EnabledAfter(old(mem), bits, old(enabled), old(burst))
    {
      mem, enabled, burst := After(mem, page, bits, enabled, burst), EnabledAfter(mem, bits, enabled, burst), [];
    }
  }

  /** The opcode of a write command, with or without address bit 8. */
  function WriteOpcode(a8: bool): nat { if a8 then WRITE_OPCODE + A8 else WRITE_OPCODE }

  /** The address a write command carries. */
  function Target(bits: AddressBits, burst: seq<bool>): nat
    requires |burst| >= 8 + bits
  {
    Value(burst[8..8 + bits]) + if bits == 8 && Value(burst[..8]) == WriteOpcode(true) then 0x100 else 0
  }

  /** A write command that the device carries out. */
  predicate IsWrite(size: nat, bits: AddressBits, enabled: bool, burst: seq<bool>) {
    && enabled && |burst| >= 8 + bits && Target(bits, burst) < size
    && (Value(burst[..8]) == WriteOpcode(false) || (bits == 8 && Value(burst[..8]) == WriteOpcode(true)))
  }

  function After(mem: seq<nat>, page: Page, bits: AddressBits, enabled: bool, burst: seq<bool>): (r: seq<nat>)
    requires |mem| % page == 0
    ensures |r| == |mem|
  {
    if IsWrite(|mem|, bits, enabled, burst) then PageWrite(mem, page, Target(bits, burst), BytesIn(burst[8 + bits..]))
    else mem
  }

  function EnabledAfter(mem: seq<nat>, bits: AddressBits, enabled: bool, burst: seq<bool>): bool {
    if |burst| == 8 && Value(burst) == ENABLE_OPCODE then true
    else enabled && !IsWrite(|mem|, bits, enabled, burst)
  }

  // ------------------------------------------------------------ bits out, bits in

  /** Whether a number has the bit of a mask of one bit. */
  predicate Has(v: nat, mask: nat)
    requires mask > 0
  {
    v / mask % 2 == 1
  }

  lemma {:induction false} ShrMore(v: nat, k: nat)
    ensures Shr(v, k) / 2 == Shr(v, k + 1)
  {
    if k > 0 {
      ShrMore(v / 2, k - 1);
    }
  }

  lemma NothingOut(v: nat)
    ensures BitsOf(v, 0) == [] && Shr(v, 0) == v && Pow2(0) == 1
  {
  }

  lemma HalfOfPow(n: nat)
    ensures Pow2(n) / 2 == if n == 0 then 0 else Pow2(n - 1)
  {
  }

  /** With bit k of a number, the n bits above it become n + 1. */
  lemma NextBit(v: nat, k: nat, n: nat)
    ensures BitsOf(Shr(v, k + 1), n) + [Has(v, Pow2(k))] == BitsOf(Shr(v, k), n + 1)
  {
    ShrMore(v, k);
    ShrIsDiv(v, k);
  }

  /** The bits of data, most significant first. */
  method ShiftOut(device: Eeprom, data: nat, count: nat)
    requires count > 0
    modifies device`burst
    ensures device.burst == old(device.burst) + BitsOf(data, count)
  {
    hide BitsOf, Pow2, Shr, Has;
    var mask := Pow2(count - 1);
    ghost var n := 0;
    NothingOut(Shr(data, count));
    NothingOut(data);
    while mask > 0
      invariant n <= count && mask == (if n < count then Pow2(count - 1 - n) else 0)
      invariant device.burst == old(device.burst) + BitsOf(Shr(data, count - n), n)
      decreases mask
    {
      NextBit(data, count - 1 - n, n);
      HalfOfPow(count - 1 - n);
      device.Clock(Has(data, mask));
      mask := mask / 2;
      n := n + 1;
    }
  }

  /** Bits shifted in by a register of sixteen bits. */
  method ShiftIn(bits: seq<bool>, count: nat) returns (data: nat)
    requires count <= |bits|
    ensures data == Value(bits[..count]) % 0x10000
  {
    data := 0;
    var i := 0;
    while i < count
      invariant i <= count && data == Value(bits[..i]) % 0x10000
    {
      assert bits[..i + 1][..i] == bits[..i];
      DoubleModulo(Value(bits[..i]));
      data := data * 2 % 0x10000;
      if bits[i] {
        data := data + 1;
      }
      i := i + 1;
    }
  }

  lemma DoubleModulo(v: nat)
    ensures v % 0x10000 * 2 % 0x10000 == 2 * v % 0x10000
    ensures v % 0x10000 * 2 % 0x10000 + 1 == (2 * v + 1) % 0x10000
  {
    var q, r := v / 0x10000, v % 0x10000;
    assert v == 0x10000 * q + r;
    var c, d := 2 * r / 0x10000, 2 * r % 0x10000;
    assert 2 * r == 0x10000 * c + d && d % 2 == 0;
    Place(c, d);
    Place(2 * q + c, d);
    Place(2 * q + c, d + 1);
  }

  lemma Place(q: nat, r: nat)
    ensures r < 0x10000 ==> (0x10000 * q + r) % 0x10000 == r
  {
  }

  /** Shifting in inverts shifting out, on the lowest count bits. */
  lemma InInvertsOut(data: nat, count: nat)
    requires count <= 16
    ensures Value(BitsOf(data, count)[..count]) % 0x10000 == data % Pow2(count)
  {
    hide BitsOf, Value, Pow2;
    ValueOfBits(data, count);
    assert BitsOf(data, count)[..count] == BitsOf(data, count);
    PowOfSixteen(count);
    ModuloBounds(data, Pow2(count));
    Small(data % Pow2(count), 0x10000);
  }

  lemma {:induction false} PowOfSixteen(count: nat)
    requires count <= 16
    ensures Pow2(count) <= 0x10000
    decreases 16 - count
  {
    if count == 16 {
      assert Pow2(16) == 16 * Pow2(12) && Pow2(12) == 16 * Pow2(8) && Pow2(8) == 16 * Pow2(4) && Pow2(4) == 16;
    } else {
      PowOfSixteen(count + 1);
    }
  }

  // ------------------------------------------------------------ words as bytes and as bits

  type Word = w: nat | w < 0x10000

  /** Both bytes of a word exchanged, as the driver sends it. */
  function Swap(w: Word): Word { w % 0x100 * 0x100 + w / 0x100 }

  /** A word in memory: the lower byte first. */
  function BytesOf(words: seq<Word>): (r: seq<nat>)
    ensures |r| == 2 * |words|
  {
    if words == [] then []
    else
      var w := words[|words| - 1];
      BytesOf(words[..|words| - 1]) + [w % 0x100, w / 0x100]
  }

  /** What the driver shifts out for some words. */
  function DataBits(words: seq<Word>): (r: seq<bool>)
    ensures |r| == 16 * |words|
  {
    if words == [] then [] else DataBits(words[..|words| - 1]) + BitsOf(Swap(words[|words| - 1]), 16)
  }

  /** Only the lowest n bits count. */
  lemma LowBits(v: nat, n: nat)
    ensures BitsOf(v % Pow2(n), n) == BitsOf(v, n)
  {
    ValueOfBits(v, n);
    BitsOfValue(BitsOf(v, n));
  }

  lemma Pow8()
    ensures Pow2(8) == 0x100 && Pow2(16) == 0x10000
  {
    assert Pow2(4) == 16 && Pow2(8) == 16 * Pow2(4);
    assert Pow2(12) == 16 * Pow2(8) && Pow2(16) == 16 * Pow2(12);
  }

  lemma SwapBits(w: Word)
    ensures BitsOf(Swap(w), 16) == BitsOf(w % 0x100, 8) + BitsOf(w / 0x100, 8)
  {
    hide BitsOf, Pow2, Shr;
    Pow8();
    BitsSplit(Swap(w), 8, 8);
    ShrIsDiv(Swap(w), 8);
    LowBits(Swap(w), 8);
  }

  lemma ByteValue(b: nat)
    requires b < 0x100
    ensures Value(BitsOf(b, 8)) == b
  {
    Pow8();
    ValueOfBits(b, 8);
  }

  lemma {:induction false} BytesInConcat(a: seq<bool>, b: seq<bool>)
    requires |a| % 8 == 0
    ensures BytesIn(a + b) == BytesIn(a) + BytesIn(b)
    decreases |a|
  {
    hide BytesIn, Value;
    if a == [] {
      assert a + b == b;
      NoBytesIn();
    } else {
      assert (a + b)[..8] == a[..8] && (a + b)[8..] == a[8..] + b;
      BytesInConcat(a[8..], b);
      BytesInMore(a);
      BytesInMore(a + b);
    }
  }

  lemma NoBytesIn()
    ensures BytesIn([]) == []
  {
  }

  lemma BytesInMore(bits: seq<bool>)
    requires |bits| >= 8
    ensures BytesIn(bits) == [Value(bits[..8])] + BytesIn(bits[8..])
  {
  }

  lemma TwoBytes(x: nat, y: nat)
    requires x < 0x100 && y < 0x100
    ensures BytesIn(BitsOf(x, 8) + BitsOf(y, 8)) == [x, y]
  {
    hide BitsOf, Value;
    ByteValue(x);
    ByteValue(y);
    BytesInConcat(BitsOf(x, 8), BitsOf(y, 8));
    OneByte(BitsOf(x, 8));
    OneByte(BitsOf(y, 8));
  }

  lemma OneByte(bits: seq<bool>)
    requires |bits| == 8
    ensures BytesIn(bits) == [Value(bits)]
  {
    assert bits[..8] == bits && bits[8..] == [];
  }

  /** The device finds the words' bytes in the bits the driver sends. */
  lemma {:induction false} DataBytes(words: seq<Word>)
    ensures BytesIn(DataBits(words)) == BytesOf(words)
  {
    if words != [] {
      hide BitsOf, BytesIn;
      var n := |words| - 1;
      DataBytes(words[..n]);
      BytesInConcat(DataBits(words[..n]), BitsOf(Swap(words[n]), 16));
      SwapBits(words[n]);
      TwoBytes(words[n] % 0x100, words[n] / 0x100);
    } else {
      assert BytesIn([]) == [];
    }
  }

  /** Within its page a write lays its bytes down one after the other. */
  lemma {:induction false} WithinPage(mem: seq<nat>, page: Page, addr: nat, bytes: seq<nat>)
    requires addr < |mem| && |mem| % page == 0 && addr % page + |bytes| <= page
    ensures addr + |bytes| <= |mem|
    ensures PageWrite(mem, page, addr, bytes) == mem[..addr] + bytes + mem[addr + |bytes|..]
    decreases |bytes|
  {
    PageBounds(|mem|, page, addr);
    if bytes == [] {
      assert mem[..addr] + [] + mem[addr..] == mem;
    } else {
      var k := |bytes| - 1;
      WithinPage(mem, page, addr, bytes[..k]);
      Small(addr % page + k, page);
      assert Wrapped(|mem|, page, addr, k) == addr + k;
      var before := mem[..addr] + bytes[..k] + mem[addr + k..];
      assert before[addr + k := bytes[k]] == mem[..addr] + bytes + mem[addr + k + 1..];
    }
  }

  lemma Small(a: nat, m: nat)
    requires a < m
    ensures a % m == a
  {
  }

  /** Each bit on the wire: the most significant one comes first. */
  lemma {:induction false} BitAt(v: nat, n: nat, i: nat)
    requires i < n
    ensures BitsOf(v, n)[i] <==> v / Pow2(n - 1 - i) % 2 == 1
  {
    if i < n - 1 {
      BitAt(v / 2, n - 1, i);
      DivHalf(v, Pow2(n - 2 - i));
    } else {
      assert Pow2(0) == 1;
    }
  }

  /** The bits of a word: the lower byte comes first, and of each byte the most significant bit. */
  lemma WordOnTheWire(w: Word, i: nat)
    requires i < 8
    ensures DataBits([w])[i] <==> w % 0x100 / Pow2(7 - i) % 2 == 1
    ensures DataBits([w])[8 + i] <==> w / 0x100 / Pow2(7 - i) % 2 == 1
  {
    hide BitsOf, Pow2;
    SwapBits(w);
    assert [w][..0] == [] && DataBits([]) == [];
    assert DataBits([w]) == [] + BitsOf(Swap(w), 16);
    BitAt(w % 0x100, 8, i);
    BitAt(w / 0x100, 8, i);
  }

  // ------------------------------------------------------------ writing words

  /** Memory after the words are stored from word offset on. */
  function Stored(mem: seq<nat>, offset: nat, words: seq<Word>): (r: seq<nat>)
    requires 2 * (offset + |words|) <= |mem|
    ensures |r| == |mem|
  {
    mem[..2 * offset] + BytesOf(words) + mem[2 * (offset + |words|)..]
  }

  function ReadWord(mem: seq<nat>, i: nat): nat
    requires 2 * i + 1 < |mem|
  {
    mem[2 * i] + 0x100 * mem[2 * i + 1]
  }

  lemma {:induction false} ByteOfWord(words: seq<Word>, k: nat)
    requires k < |words|
    ensures BytesOf(words)[2 * k] == words[k] % 0x100 && BytesOf(words)[2 * k + 1] == words[k] / 0x100
  {
    if k < |words| - 1 {
      ByteOfWord(words[..|words| - 1], k);
    }
  }

  /** Word offset + k reads as word k of the data, and every other word as before. */
  lemma StoredReads(mem: seq<nat>, offset: nat, words: seq<Word>, i: nat)
    requires 2 * (offset + |words|) <= |mem| && 2 * i + 1 < |mem|
    ensures ReadWord(Stored(mem, offset, words), i) == if offset <= i < offset + |words| then words[i - offset] else ReadWord(mem, i)
  {
    if offset <= i < offset + |words| {
      ByteOfWord(words, i - offset);
    }
  }

  lemma {:induction false} BytesOfConcat(a: seq<Word>, b: seq<Word>)
    ensures BytesOf(a + b) == BytesOf(a) + BytesOf(b)
  {
    if b == [] {
      assert a + b == a;
    } else {
      var n := |b| - 1;
      assert (a + b)[..|a| + n] == a + b[..n];
      BytesOfConcat(a, b[..n]);
    }
  }

  lemma StoredMore(mem: seq<nat>, offset: nat, a: seq<Word>, b: seq<Word>)
    requires 2 * (offset + |a| + |b|) <= |mem|
    ensures Stored(Stored(mem, offset, a), offset + |a|, b) == Stored(mem, offset, a + b)
  {
    BytesOfConcat(a, b);
  }

  lemma DataBitsMore(words: seq<Word>, w: Word)
    ensures DataBits(words + [w]) == DataBits(words) + BitsOf(Swap(w), 16)
  {
    assert (words + [w])[..|words|] == words;
  }

  /** A write command with its address, as far as there are bits for it, and its words. */
  function WriteBurst(bits: AddressBits, a8: bool, addr: nat, words: seq<Word>): seq<bool> {
    BitsOf(WriteOpcode(a8), 8) + BitsOf(addr, bits) + DataBits(words)
  }

  /** The address the device finds in it. */
  function Landing(bits: AddressBits, a8: bool, addr: nat): nat {
    if bits == 16 then addr else addr % 0x100 + if a8 then 0x100 else 0
  }

  lemma BurstTarget(bits: AddressBits, a8: bool, addr: nat, words: seq<Word>)
    requires addr < 0x10000 && (a8 ==> bits == 8)
    ensures var burst := WriteBurst(bits, a8, addr, words);
      && |burst| >= 8 + bits && Target(bits, burst) == Landing(bits, a8, addr)
      && Value(burst[..8]) == WriteOpcode(a8) && burst[8 + bits..] == DataBits(words)
  {
    hide BitsOf, DataBits, Value;
    var burst := WriteBurst(bits, a8, addr, words);
    assert burst[..8] == BitsOf(WriteOpcode(a8), 8) && burst[8..8 + bits] == BitsOf(addr, bits);
    assert burst[8 + bits..] == DataBits(words);
    ByteValue(WriteOpcode(a8));
    Pow8();
    ValueOfBits(addr, bits);
    Small(addr, 0x10000);
  }

  /** The device stores the words of a burst that stays within its page, where the address lands. */
  lemma BurstStores(mem: seq<nat>, page: Page, bits: AddressBits, a8: bool, addr: nat, words: seq<Word>)
    requires Sized(|mem|, page, bits) && addr < 0x10000 && (a8 ==> bits == 8)
    requires var at := Landing(bits, a8, addr); at % 2 == 0 && at < |mem| && at % page + 2 * |words| <= page
    ensures var at := Landing(bits, a8, addr);
      at + 2 * |words| <= |mem| && After(mem, page, bits, true, WriteBurst(bits, a8, addr, words)) == Stored(mem, at / 2, words)
  {
    hide BitsOf, DataBits, BytesIn, BytesOf, PageWrite, Value, WriteBurst, Landing, Target;
    BurstTarget(bits, a8, addr, words);
    DataBytes(words);
    WithinPage(mem, page, Landing(bits, a8, addr), BytesOf(words));
  }

  /** Asks for the status until the device is ready, at most as often as the driver waits.  Poll i finds
      it ready if idle(i). */
  method Ready(device: Eeprom, retries: nat, idle: nat -> bool) returns (ready: bool)
    requires device.Valid() && device.burst == []
    modifies device
    ensures device.Valid() && device.mem == old(device.mem) && device.enabled == old(device.enabled)
    ensures device.burst == if ready then BitsOf(STATUS_OPCODE, 8) + BitsOf(0, 8) else []
    ensures ready <==> exists i :: 0 <= i < retries && idle(i)
  {
    hide BitsOf, Value;
    var timeout := retries;
    while timeout > 0
      invariant timeout <= retries && forall i :: 0 <= i < retries - timeout ==> !idle(i)
      invariant device.Valid() && device.mem == old(device.mem) && device.enabled == old(device.enabled)
          && device.burst == []
    {
      ShiftOut(device, STATUS_OPCODE, 8);
      ShiftOut(device, 0, 8);               // eight clocks for the status, nothing sent
      assert device.burst == BitsOf(STATUS_OPCODE, 8) + BitsOf(0, 8);
      if idle(retries - timeout) {
        return true;
      }
      StatusIsHarmless(device.mem, device.page, device.bits, device.enabled);
      device.Deselect();
      timeout := timeout - 1;
    }
    ready := false;
  }

  lemma StatusIsHarmless(mem: seq<nat>, page: Page, bits: AddressBits, enabled: bool)
    requires |mem| % page == 0
    ensures var burst := BitsOf(STATUS_OPCODE, 8) + BitsOf(0, 8);
      After(mem, page, bits, enabled, burst) == mem && EnabledAfter(mem, bits, enabled, burst) == enabled
  {
    hide BitsOf, Value;
    var burst := BitsOf(STATUS_OPCODE, 8) + BitsOf(0, 8);
    assert burst[..8] == BitsOf(STATUS_OPCODE, 8);
    ByteValue(STATUS_OPCODE);
  }

  lemma EnableEnables(mem: seq<nat>, page: Page, bits: AddressBits, enabled: bool)
    requires |mem| % page == 0
    ensures After(mem, page, bits, enabled, BitsOf(ENABLE_OPCODE, 8)) == mem
        && EnabledAfter(mem, bits, enabled, BitsOf(ENABLE_OPCODE, 8))
  {
    hide BitsOf, Value;
    ByteValue(ENABLE_OPCODE);
  }

  /** The place in its page that a word is written to. */
  function InPage(page: Page, offset: nat): nat { 2 * offset % page }

  /** Enables writing and sends a write command's opcode and address. */
  method StartWrite(device: Eeprom, a8: bool, offset: nat)
    requires device.Valid() && device.burst == BitsOf(STATUS_OPCODE, 8) + BitsOf(0, 8)
    modifies device
    ensures device.Valid() && device.enabled && device.mem == old(device.mem)
    ensures device.burst == WriteBurst(device.bits, a8, 2 * offset, [])
  {
    hide BitsOf, Value, After, WriteBurst, WriteOpcode, EnabledAfter;
    StatusIsHarmless(device.mem, device.page, device.bits, device.enabled);
    device.Deselect();
    ShiftOut(device, ENABLE_OPCODE, 8);
    assert device.burst == BitsOf(ENABLE_OPCODE, 8);
    EnableEnables(device.mem, device.page, device.bits, device.enabled);
    device.Deselect();
    ShiftOut(device, WriteOpcode(a8), 8);
    assert device.burst == BitsOf(WriteOpcode(a8), 8);
    ShiftOut(device, 2 * offset, device.bits);
    NoWords(device.bits, a8, 2 * offset);
  }

  /** One pass of the outer loop once the device is ready: the words up to the end of the page. */
  method WritePage(device: Eeprom, a8: bool, offset: nat, words: seq<Word>) returns (widx: nat)
    requires device.Valid() && device.burst == BitsOf(STATUS_OPCODE, 8) + BitsOf(0, 8)
    requires words != [] && 2 * (offset + |words|) <= |device.mem| && (a8 ==> device.bits == 8 && offset >= 0x80)
    modifies device
    ensures device.Valid() && device.burst == [] && 0 < widx <= |words|
    ensures var at := LandingWord(device.bits, a8, offset);
      at + widx <= offset + widx && device.mem == Stored(old(device.mem), at, words[..widx])
    ensures widx == |words| || InPage(device.page, offset + widx) == 0
    ensures InPage(device.page, offset) + 2 * widx <= device.page
    ensures widx < |words| ==> InPage(device.page, offset) + 2 * widx == device.page
  {
    hide BitsOf, BytesOf, After, DataBits, WriteBurst, Landing, Stored, InPage, Sized, LandingWord;
    StartWrite(device, a8, offset);
    widx := 0;
    RoomInPage(device.page, offset);
    var standby := false;
    while widx < |words| && !standby
      invariant widx <= |words| && device.mem == old(device.mem) && device.enabled && device.Valid()
      invariant device.burst == WriteBurst(device.bits, a8, 2 * offset, words[..widx])
      invariant InPage(device.page, offset) + 2 * widx <= device.page
      invariant !standby ==> InPage(device.page, offset) + 2 * widx < device.page
      invariant standby ==> widx > 0 && InPage(device.page, offset + widx) == 0
      invariant standby ==> InPage(device.page, offset) + 2 * widx == device.page
      decreases !standby, |words| - widx
    {
      OneMoreWord(device.bits, a8, 2 * offset, words[..widx], words[widx]);
      assert words[..widx] + [words[widx]] == words[..widx + 1];
      EvenSteps(device.page, offset, widx);
      ShiftOut(device, Swap(words[widx]), 16);
      widx := widx + 1;
      standby := InPage(device.page, offset + widx) == 0;
    }
    PageLands(device.mem, device.page, device.bits, a8, offset, words[..widx]);
    device.Deselect();
  }

  /** A burst within a page is stored from the word it lands at on. */
  lemma PageLands(mem: seq<nat>, page: Page, bits: AddressBits, a8: bool, offset: nat, words: seq<Word>)
    requires Sized(|mem|, page, bits) && 2 * offset < |mem| && (a8 ==> bits == 8 && offset >= 0x80)
    requires InPage(page, offset) + 2 * |words| <= page
    ensures var at := LandingWord(bits, a8, offset);
      && at <= offset && 2 * (at + |words|) <= |mem|
      && After(mem, page, bits, true, WriteBurst(bits, a8, 2 * offset, words)) == Stored(mem, at, words)
  {
    hide Landing, WriteBurst, Stored, After;
    LandsInPage(page, bits, a8, offset, |mem|);
    BurstStores(mem, page, bits, a8, 2 * offset, words);
  }

  /** The word a write to a word offset lands at. */
  function LandingWord(bits: AddressBits, a8: bool, offset: nat): nat {
    if bits == 16 || a8 || offset < 0x80 then offset else offset - 0x80
  }

  /** Where a write lands, it is at the same place of a page. */
  lemma LandsInPage(page: Page, bits: AddressBits, a8: bool, offset: nat, size: nat)
    requires Sized(size, page, bits) && 2 * offset < size && (a8 ==> bits == 8 && offset >= 0x80)
    ensures var at := Landing(bits, a8, 2 * offset);
      at == 2 * LandingWord(bits, a8, offset) && at < size && at % page == InPage(page, offset)
  {
    if bits == 8 && offset >= 0x80 {
      SamePlace(page, 2 * offset - 0x100);
    }
  }

  /** Half a memory further on is the same place of a page. */
  lemma SamePlace(page: Page, addr: nat)
    requires 0x100 % page == 0
    ensures (addr + 0x100) % page == addr % page
  {
    var n, q := 0x100 / page, addr / page;
    Division(0x100, page);
    Division(addr, page);
    SumOfMultiples(n, q, page);
    Remainder(addr + 0x100, page, n + q, addr % page);
  }

  lemma SumOfMultiples(n: nat, q: nat, m: nat)
    ensures (n + q) * m == n * m + q * m
  {
  }

  lemma NoWords(bits: AddressBits, a8: bool, addr: nat)
    ensures WriteBurst(bits, a8, addr, []) == BitsOf(WriteOpcode(a8), 8) + BitsOf(addr, bits)
  {
    hide BitsOf;
    NoData();
  }

  lemma OneMoreWord(bits: AddressBits, a8: bool, addr: nat, words: seq<Word>, w: Word)
    ensures WriteBurst(bits, a8, addr, words + [w]) == WriteBurst(bits, a8, addr, words) + BitsOf(Swap(w), 16)
  {
    hide BitsOf;
    DataBitsMore(words, w);
  }

  lemma NoData()
    ensures DataBits([]) == []
  {
  }

  lemma RoomInPage(page: Page, offset: nat)
    ensures InPage(page, offset) < page
  {
  }

  /** The place in the page moves on by two and comes out as zero exactly at the end of the page. */
  lemma EvenSteps(page: Page, offset: nat, widx: nat)
    requires InPage(page, offset) + 2 * widx < page
    ensures InPage(page, offset) + 2 * (widx + 1) <= page
    ensures InPage(page, offset + (widx + 1)) == 0 <==> InPage(page, offset) + 2 * (widx + 1) == page
  {
    var q, half := Halves(2 * offset, page);
    PlaceAfter(q, page, 2 * (half + widx));
    assert 2 * (offset + (widx + 1)) == q * page + 2 * (half + widx) + 2;
  }

  /** An even number's place in an even page is even. */
  lemma Halves(a: nat, page: nat) returns (q: nat, half: nat)
    requires page > 0 && a % 2 == page % 2 == 0
    ensures a == q * page + 2 * half && a % page == 2 * half
  {
    var r;
    q, r := Divide(a, page);
    EvenParts(a, q, page, r);
    half := r / 2;
  }

  lemma Divide(a: nat, m: nat) returns (q: nat, r: nat)
    requires m > 0
    ensures a == q * m + r && r < m && r == a % m
  {
    q, r := a / m, a % m;
    Division(a, m);
  }

  lemma PlaceAfter(q: nat, page: nat, r: nat)
    requires page > 0 && page % 2 == r % 2 == 0 && r < page
    ensures r + 2 <= page
    ensures (q * page + r + 2) % page == 0 <==> r + 2 == page
  {
    EvenBelow(r, page);
    var x := q * page;
    if r + 2 < page {
      Remainder(x + r + 2, page, q, r + 2);
    } else {
      Distribute(q, page);
      Remainder(x + r + 2, page, q + 1, 0);
    }
  }

  lemma EvenBelow(r: nat, page: nat)
    requires page % 2 == r % 2 == 0 && r < page
    ensures r + 2 <= page
  {
  }

  lemma EvenParts(a: nat, q: nat, page: nat, r: nat)
    requires a == q * page + r && a % 2 == page % 2 == 0
    ensures r % 2 == 0
  {
    var h := page / 2;
    assert page == 2 * h;
    EvenProduct(q, h);
    assert a == 2 * (q * h) + r;
  }

  lemma EvenProduct(q: nat, h: nat)
    ensures q * (2 * h) == 2 * (q * h)
  {
  }

  /** Memory after words are written from word offset on.  With eight address bits the ninth is that of
      the first word: words beyond the first half then go to the start of that half. */
  function Landed(mem: seq<nat>, bits: AddressBits, offset: nat, words: seq<Word>): (r: seq<nat>)
    requires 2 * (offset + |words|) <= |mem|
    ensures |r| == |mem|
  {
    if StaysInHalf(bits, offset, |words|) then Stored(mem, offset, words)
    else Stored(Stored(mem, offset, words[..0x80 - offset]), 0, words[0x80 - offset..])
  }

  /** The address of each word has the ninth bit of the first. */
  predicate StaysInHalf(bits: AddressBits, offset: nat, n: nat) { bits == 16 || offset >= 0x80 || offset + n <= 0x80 }

  /** The first word beyond the half is not written at all. */
  lemma CrossingMisses(mem: seq<nat>, bits: AddressBits, offset: nat, words: seq<Word>)
    requires 2 * (offset + |words|) <= |mem| <= 0x200 && !StaysInHalf(bits, offset, |words|)
    ensures ReadWord(Landed(mem, bits, offset, words), 0x80) == ReadWord(mem, 0x80)
    ensures ReadWord(Stored(mem, offset, words), 0x80) == words[0x80 - offset]
  {
    hide Stored, ReadWord;
    var first, rest := words[..0x80 - offset], words[0x80 - offset..];
    StoredReads(mem, offset, words, 0x80);
    StoredReads(mem, offset, first, 0x80);
    StoredReads(Stored(mem, offset, first), 0, rest, 0x80);
  }

  /** Whatever was there before, the words come to lie where they should exactly when they stay in one half
      or the device has sixteen address bits. */
  lemma StoredExactly(size: nat, bits: AddressBits, offset: nat, words: seq<Word>)
    requires 2 * (offset + |words|) <= size && (bits == 8 ==> size <= 0x200)
    ensures (forall mem: seq<nat> :: |mem| == size ==> Landed(mem, bits, offset, words) == Stored(mem, offset, words))
            <==> StaysInHalf(bits, offset, |words|)
  {
    hide Stored;
    if !StaysInHalf(bits, offset, |words|) {
      var fill := if words[0x80 - offset] == 0 then 1 else 0;
      var mem := Filled(size, fill);
      CrossingMisses(mem, bits, offset, words);
      assert ReadWord(mem, 0x80) != words[0x80 - offset];
    }
  }

  function Filled(size: nat, b: nat): (r: seq<nat>)
    ensures |r| == size
  {
    seq(size, _ => b)
  }

  /** One more page of a write. */
  lemma LandedMore(mem: seq<nat>, bits: AddressBits, offset: nat, a: seq<Word>, b: seq<Word>)
    requires b != [] && 2 * (offset + |a| + |b|) <= |mem| && (bits == 8 ==> |mem| <= 0x200)
    requires bits == 8 && offset < 0x80 ==> offset + |a| + |b| <= 0x80 || offset + |a| >= 0x80
    ensures var at := LandingWord(bits, bits == 8 && offset >= 0x80, offset + |a|);
      Landed(mem, bits, offset, a + b) == Stored(Landed(mem, bits, offset, a), at, b)
  {
    hide Stored;
    if StaysInHalf(bits, offset, |a + b|) {
      StoredMore(mem, offset, a, b);
    } else {
      var k := 0x80 - offset;
      assert (a + b)[..k] == a[..k] && (a + b)[k..] == a[k..] + b;
      if |a| == k {
        assert a[..k] == a && a[k..] + b == b;
      } else {
        StoredMore(Stored(mem, offset, a[..k]), 0, a[k..], b);
      }
    }
  }

  /** A page does not reach from one half into the other. */
  lemma PageInHalf(page: Page, offset: nat, n: nat)
    requires 0x100 % page == 0 && InPage(page, offset) + 2 * n <= page
    ensures offset + n <= 0x80 || offset >= 0x80
  {
    if offset < 0x80 {
      PageBounds(0x100, page, 2 * offset);
    }
  }

  lemma PageMore(mem: seq<nat>, page: Page, bits: AddressBits, offset: nat, a: seq<Word>, b: seq<Word>)
    requires Sized(|mem|, page, bits) && b != [] && 2 * (offset + |a| + |b|) <= |mem|
    requires InPage(page, offset + |a|) + 2 * |b| <= page
    ensures var at := LandingWord(bits, bits == 8 && offset >= 0x80, offset + |a|);
      Landed(mem, bits, offset, a + b) == Stored(Landed(mem, bits, offset, a), at, b)
  {
    hide Landed, Stored, InPage, LandingWord;
    if bits == 8 {
      PageInHalf(page, offset + |a|, |b|);
    }
    LandedMore(mem, bits, offset, a, b);
  }

  /** Where page number n of a write ends, counted from the start of its first. */
  function PageEnd(page: Page, n: nat): nat { n * page }

  lemma PageEnds(page: Page, n: nat)
    ensures PageEnd(page, 0) == 0 && PageEnd(page, n + 1) == PageEnd(page, n) + page
  {
  }

  /** The first so many words are those of the first so many pages. */
  predicate WholePages(page: Page, offset: nat, n: nat, widx: nat, pages: nat)
    requires widx <= n
  {
    var end := InPage(page, offset) + 2 * widx;
    if pages == 0 then widx == 0
    else PageEnd(page, pages - 1) < end <= PageEnd(page, pages) && (widx < n ==> end == PageEnd(page, pages))
  }

  lemma WholePagesMore(page: Page, offset: nat, n: nat, widx: nat, pages: nat, more: nat)
    requires widx + more <= n && more > 0 && WholePages(page, offset, n, widx, pages)
    requires pages > 0 ==> InPage(page, offset + widx) == 0
    requires InPage(page, offset + widx) + 2 * more <= page
    requires widx + more < n ==> InPage(page, offset + widx) + 2 * more == page
    ensures WholePages(page, offset, n, widx + more, pages + 1)
  {
    hide InPage, PageEnd;
    PageEnds(page, pages);
  }

  /** Before a page the device is granted, and it is ready at one of the polls. */
  predicate Answers(grant: nat -> bool, idle: nat -> nat -> bool, retries: nat, p: nat) {
    grant(p) && exists i :: 0 <= i < retries && idle(p)(i)
  }

  /** Stores words from a word offset on, one page at a time.  It fails on bad parameters, or at the first
      page before which the device is not acquired or does not become ready; words already stored stay. */
  method WriteSpi(device: Eeprom, wordSize: nat, offset: nat, words: seq<Word>, retries: nat,
      grant: nat -> bool, idle: nat -> nat -> bool)
    returns (ok: bool, widx: nat, ghost pages: nat)
    requires device.Valid() && device.burst == [] && |device.mem| == 2 * wordSize
    modifies device
    ensures device.Valid() && device.burst == [] && widx <= |words|
    ensures offset >= wordSize || |words| > wordSize - offset || words == [] ==>
        !ok && widx == pages == 0 && device.mem == old(device.mem)
    ensures offset < wordSize && 0 < |words| <= wordSize - offset && !ok ==> !Answers(grant, idle, retries, pages)
    ensures forall p :: 0 <= p < pages ==> Answers(grant, idle, retries, p)
    ensures ok ==> widx == |words| > 0
    ensures WholePages(device.page, offset, |words|, widx, pages)
    ensures widx > 0 ==>
        2 * (offset + widx) <= |old(device.mem)| && device.mem == Landed(old(device.mem), device.bits, offset, words[..widx])
    ensures widx == 0 ==> device.mem == old(device.mem)
    ensures |device.mem| == 2 * wordSize
    ensures device.bits == 16 || offset >= 0x80 || offset + widx <= 0x80 ==>
      && (forall k :: 0 <= k < widx && 2 * (offset + k) + 1 < 2 * wordSize ==>
            device.mem[2 * (offset + k)] == words[k] % 0x100 && device.mem[2 * (offset + k) + 1] == words[k] / 0x100)
      && (forall a :: 0 <= a < 2 * wordSize && (a < 2 * offset || a >= 2 * (offset + widx)) ==> device.mem[a] == old(device.mem)[a])
    ensures !ok && widx > 0 ==> widx < |words| && InPage(device.page, offset + widx) == 0
  {
    hide BitsOf, Value, BytesOf, Stored, Landed, LandingWord, InPage, Sized, WholePages;
    ok, widx, pages := false, 0, 0;
    NoPages(device.page, offset, |words|);
    if offset >= wordSize || |words| > wordSize - offset || |words| == 0 {
      return;
    }
    LandedNothing(device.mem, device.bits, offset);
    var page := 0;
    while widx < |words|
      invariant device.Valid() && device.burst == [] && widx <= |words| && |device.mem| == 2 * wordSize && page == pages
      invariant device.mem == Landed(old(device.mem), device.bits, offset, words[..widx])
      invariant widx == |words| || pages == 0 || InPage(device.page, offset + widx) == 0
      invariant WholePages(device.page, offset, |words|, widx, pages) && (pages == 0 <==> widx == 0)
      invariant forall p :: 0 <= p < pages ==> Answers(grant, idle, retries, p)
    {
      if StaysInHalf(device.bits, offset, widx) {
        LandedBytes(old(device.mem), device.bits, offset, words[..widx]);
      }
      if !grant(page) {
        LandedNothing(old(device.mem), device.bits, offset);
        return;
      }
      var ready := Ready(device, retries, idle(page));
      if !ready {
        LandedNothing(old(device.mem), device.bits, offset);
        return;
      }
      var n := WritePage(device, device.bits == 8 && offset >= 0x80, offset + widx, words[widx..]);
      PageMore(old(device.mem), device.page, device.bits, offset, words[..widx], words[widx..][..n]);
      WholePagesMore(device.page, offset, |words|, widx, pages, n);
      assert words[..widx] + words[widx..][..n] == words[..widx + n];
      widx, page, pages := widx + n, page + 1, pages + 1;
    }
    if StaysInHalf(device.bits, offset, widx) {
      LandedBytes(old(device.mem), device.bits, offset, words[..widx]);
    }
    ok := true;
  }

  /** Words that stay in one half, byte by byte: the lower byte of each comes first. */
  lemma LandedBytes(mem: seq<nat>, bits: AddressBits, offset: nat, words: seq<Word>)
    requires 2 * (offset + |words|) <= |mem| && StaysInHalf(bits, offset, |words|)
    ensures forall k :: 0 <= k < |words| ==>
      var after := Landed(mem, bits, offset, words);
      after[2 * (offset + k)] == words[k] % 0x100 && after[2 * (offset + k) + 1] == words[k] / 0x100
    ensures forall a :: 0 <= a < |mem| && (a < 2 * offset || a >= 2 * (offset + |words|)) ==>
      Landed(mem, bits, offset, words)[a] == mem[a]
  {
    hide BytesOf;
    forall k | 0 <= k < |words|
      ensures BytesOf(words)[2 * k] == words[k] % 0x100 && BytesOf(words)[2 * k + 1] == words[k] / 0x100
    {
      ByteOfWord(words, k);
    }
  }

  lemma NoPages(page: Page, offset: nat, n: nat)
    ensures WholePages(page, offset, n, 0, 0)
  {
  }

  lemma LandedNothing(mem: seq<nat>, bits: AddressBits, offset: nat)
    requires 2 * offset <= |mem|
    ensures forall words: seq<Word> :: words == [] ==> Landed(mem, bits, offset, words) == mem
  {
  }
}
