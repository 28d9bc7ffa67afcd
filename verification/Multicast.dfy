/** The multicast filter: a table of one bit for each hash value, rebuilt from a list of addresses. */
module Multicast {
  import opened Bits

  const MAX_MTA_REG: nat := 128

  /** The two last bytes of a multicast address; the others do not take part in the hash. */
  datatype Address = Address(a4: Byte, a5: Byte)

  /** Table sizes, in registers of 32 bits: from 8 to 128, powers of two. */
  predicate RegCount(n: nat) { n == 8 || n == 16 || n == 32 || n == 64 || n == 128 }

  /** Bits of the table as a power of two. */
  function TableBits(n: nat): (k: nat)
    requires RegCount(n)
    ensures 8 <= k <= 12 && Pow2(k) == 32 * n
  {
    PowersUpTo12();
    if n == 8 then 8 else if n == 16 then 9 else if n == 32 then 10 else if n == 64 then 11 else 12
  }

  lemma PowersUpTo12()
    ensures Pow2(4) == 16 && Pow2(8) == 256 && Pow2(9) == 512 && Pow2(10) == 1024 && Pow2(11) == 2048 && Pow2(12) == 4096
  {
    assert Pow2(4) == 16 && Pow2(8) == 16 * Pow2(4) && Pow2(12) == 16 * Pow2(8);
  }

  /** Extra shift of a filter type. */
  function TypeShift(filterType: nat): (r: nat)
    ensures r <= 4
  {
    if filterType == 1 then 1 else if filterType == 2 then 2 else if filterType == 3 then 4 else 0
  }

  /** The hash in one piece: the two bytes as one number, shifted, within the table.  Type 0, as any type
      but 1, 2 and 3, takes the upper bits of the number; the others take bits further down. */
  function HashOf(n: nat, filterType: nat, addr: Address): (h: nat)
    requires RegCount(n)
    ensures h < 32 * n
    ensures filterType !in {1, 2, 3} ==> h == (0x100 * addr.a5 + addr.a4) / (2048 / n)
    ensures filterType == 1 ==> h == (0x100 * addr.a5 + addr.a4) / (1024 / n) % (32 * n)
    ensures filterType == 2 ==> h == (0x100 * addr.a5 + addr.a4) / (512 / n) % (32 * n)
    ensures filterType == 3 ==> h == (0x100 * addr.a5 + addr.a4) / (128 / n) % (32 * n)
  {
    ShiftAsQuotient(n, filterType);
    (0x100 * addr.a5 + addr.a4) / Pow2(16 - TableBits(n) - TypeShift(filterType)) % (32 * n)
  }

  lemma ShiftAsQuotient(n: nat, filterType: nat)
    requires RegCount(n)
    ensures Pow2(16 - TableBits(n) - TypeShift(filterType))
         == (if filterType == 1 then 1024 else if filterType == 2 then 512 else if filterType == 3 then 128 else 2048) / n
  {
    PowersUpTo12();
    PowersUpTo8();
  }

  lemma PowersUpTo8()
    ensures Pow2(0) == 1 && Pow2(1) == 2 && Pow2(2) == 4 && Pow2(3) == 8 && Pow2(5) == 32 && Pow2(6) == 64 && Pow2(7) == 128
  {
  }

  /** The address 01:AA:00:12:34:56 in a table of 128 registers, for each filter type. */
  lemma ExampleHashes()
    ensures var addr := Address(0x34, 0x56);
      HashOf(128, 0, addr) == 0x563 && HashOf(128, 1, addr) == 0xAC6
      && HashOf(128, 2, addr) == 0x58D && HashOf(128, 3, addr) == 0x634
  {
  }

  /** The shift search stops, at the shift that leaves eight bits of the mask. */
  lemma ShiftFound(n: nat, shift: nat)
    requires RegCount(n)
    ensures Shr(32 * n - 1, shift) == 0xFF <==> shift == TableBits(n) - 8
  {
    var k := TableBits(n);
    MaskShifted(k, shift);
  }

  lemma {:induction false} MaskShifted(k: nat, shift: nat)
    requires k >= 8
    ensures Shr(Pow2(k) - 1, shift) == 0xFF <==> shift == k - 8
    decreases shift
  {
    PowersUpTo12();
    if shift == 0 {
      PowGrows(8, k);
    } else {
      assert (Pow2(k) - 1) / 2 == Pow2(k - 1) - 1;
      if k > 8 {
        MaskShifted(k - 1, shift - 1);
      } else {
        ShrShrinks(127, shift - 1);
      }
    }
  }

  lemma {:induction false} PowGrows(a: nat, b: nat)
    requires a <= b
    ensures Pow2(a) <= Pow2(b) && (a < b ==> 2 * Pow2(a) <= Pow2(b))
  {
    if a < b {
      PowGrows(a, b - 1);
    }
  }

  lemma {:induction false} ShrShrinks(v: nat, n: nat)
    ensures Shr(v, n) <= v
    decreases n
  {
    if n > 0 {
      ShrShrinks(v / 2, n - 1);
    }
  }

  /** The shift by eight bits in all, taken apart: what moves down and what moves up do not meet. */
  lemma ShiftsMeet(a4: Byte, a5: Byte, up: nat)
    requires up <= 8
    ensures Or(Shr(a4, 8 - up), Shl(a5, up)) == (0x100 * a5 + a4) / Pow2(8 - up)
  {
    hide Or, Shl, Shr, Pow2;
    ShrIsDiv(a4, 8 - up);
    PowSplit(up);
    Combine(a4, a5, Pow2(up), Pow2(8 - up));
    OrDisjoint(Shr(a4, 8 - up), a5, up);
    ShlIsTimes(a5, up);
  }

  lemma Combine(a4: nat, a5: nat, m: nat, down: nat)
    requires down > 0 && m * down == 0x100 && a4 < 0x100
    ensures a4 / down < m && (0x100 * a5 + a4) / down == a4 / down + a5 * m
  {
    var q, r := a4 / down, a4 % down;
    assert a4 == q * down + r;
    Below(q, m, down, a4);
    assert a5 * (m * down) == a5 * m * down;
    assert 0x100 * a5 + a4 == (a5 * m + q) * down + r;
    Remainder(0x100 * a5 + a4, down, a5 * m + q, r);
  }

  lemma PowSplit(up: nat)
    requires up <= 8
    ensures Pow2(up) * Pow2(8 - up) == 0x100
  {
    PowersUpTo12();
    PowProduct(up, 8 - up);
  }

  lemma {:induction false} PowProduct(a: nat, b: nat)
    ensures Pow2(a) * Pow2(b) == Pow2(a + b)
  {
    if a > 0 {
      PowProduct(a - 1, b);
      TwiceProduct(Pow2(a - 1), Pow2(b));
      assert Pow2(a + b) == 2 * Pow2(a - 1 + b);
    }
  }

  lemma TwiceProduct(x: nat, y: nat)
    ensures 2 * x * y == 2 * (x * y)
  {
  }

  /** A quotient of a number below m * down is below m. */
  lemma Below(q: nat, m: nat, down: nat, a: nat)
    requires q * down <= a < m * down
    ensures q < m
  {
    Product(m, q, down);
  }

  lemma Product(m: nat, q: nat, d: nat)
    ensures m <= q ==> m * d <= q * d
  {
  }

  // ------------------------------------------------------------ the driver's loops

  /** The hash as the driver computes it: a search for the shift, then shifts and masks. */
  method HashMcAddr(n: nat, filterType: nat, addr: Address) returns (hash: nat)
    requires RegCount(n)
    ensures hash == HashOf(n, filterType, addr)
    ensures filterType !in {1, 2, 3} ==> hash == (0x100 * addr.a5 + addr.a4) / (2048 / n)
    ensures filterType == 1 ==> hash == (0x100 * addr.a5 + addr.a4) / (1024 / n) % (32 * n)
    ensures filterType == 2 ==> hash == (0x100 * addr.a5 + addr.a4) / (512 / n) % (32 * n)
    ensures filterType == 3 ==> hash == (0x100 * addr.a5 + addr.a4) / (128 / n) % (32 * n)
  {
    hide HashOf, And, Or, Shl, Shr, Pow2, TableBits;
    var mask := 32 * n - 1;
    var shift := 0;
    ghost var k := TableBits(n);
    ShiftFound(n, 0);
    while Shr(mask, shift) != 0xFF
      invariant shift <= k - 8
      invariant Shr(mask, shift) == 0xFF <==> shift == k - 8
      decreases k - shift
    {
      shift := shift + 1;
      ShiftFound(n, shift);
    }
    if filterType == 1 {
      shift := shift + 1;
    } else if filterType == 2 {
      shift := shift + 2;
    } else if filterType == 3 {
      shift := shift + 4;
    }
    Masked(n, filterType, addr);
    hash := And(mask, Or(Shr(addr.a4, 8 - shift), Shl(addr.a5, shift)));
  }

  lemma Masked(n: nat, filterType: nat, addr: Address)
    requires RegCount(n)
    ensures var shift := TableBits(n) - 8 + TypeShift(filterType);
      And(32 * n - 1, Or(Shr(addr.a4, 8 - shift), Shl(addr.a5, shift))) == HashOf(n, filterType, addr)
  {
    hide And, Or, Shl, Shr, Pow2, TypeShift;
    var k := TableBits(n);
    var shift := k - 8 + TypeShift(filterType);
    ShiftsMeet(addr.a4, addr.a5, shift);
    var x := Or(Shr(addr.a4, 8 - shift), Shl(addr.a5, shift));
    AndMask(x, k);
    AndCommutes(x, 32 * n - 1);
  }

  lemma {:induction false} AndCommutes(x: nat, y: nat)
    ensures And(x, y) == And(y, x)
  {
    if x == 0 {
      AndZero(y);
    } else if y == 0 {
      AndZero(x);
    } else {
      AndCommutes(x / 2, y / 2);
    }
  }

  /** A bit of the table is set exactly when some address of the list hashes to it. */
  ghost predicate Filters(table: seq<nat>, n: nat, filterType: nat, addrs: seq<Address>)
    requires RegCount(n)
  {
    |table| >= n && forall r, b :: 0 <= r < n && 0 <= b < 32 ==>
      (Bit(table[r], b) <==> Listed(n, filterType, addrs, 32 * r + b))
  }

  predicate Listed(n: nat, filterType: nat, addrs: seq<Address>, h: nat)
    requires RegCount(n)
  {
    exists k :: 0 <= k < |addrs| && HashOf(n, filterType, addrs[k]) == h
  }

  /** The table that has been cleared filters nothing. */
  lemma ClearedFilters(table: seq<nat>, n: nat, filterType: nat)
    requires RegCount(n) && |table| == MAX_MTA_REG && forall r :: 0 <= r < MAX_MTA_REG ==> table[r] == 0
    ensures Filters(table, n, filterType, [])
  {
    forall b: nat ensures !Bit(0, b) {
      ZeroBits(b);
    }
  }

  /** One more address sets the bit it hashes to. */
  lemma FiltersMore(table: seq<nat>, n: nat, filterType: nat, addrs: seq<Address>, addr: Address)
    requires RegCount(n) && |table| == MAX_MTA_REG && Filters(table, n, filterType, addrs)
    ensures var h := HashOf(n, filterType, addr);
      h / 32 < n && Filters(table[h / 32 := Or(table[h / 32], Pow2(h % 32))], n, filterType, addrs + [addr])
  {
    hide HashOf, Or, Bit, Pow2;
    var h := HashOf(n, filterType, addr);
    assert h / 32 < n;
    var after := table[h / 32 := Or(table[h / 32], Pow2(h % 32))];
    forall r, b | 0 <= r < n && 0 <= b < 32
      ensures Bit(after[r], b) <==> Listed(n, filterType, addrs + [addr], 32 * r + b)
    {
      ListedMore(n, filterType, addrs, addr, 32 * r + b);
      assert 32 * r + b == h <==> r == h / 32 && b == h % 32;
      if r == h / 32 {
        OrBits(table[r], Pow2(h % 32), b);
        PowBits(h % 32, b);
      }
    }
  }

  lemma ListedMore(n: nat, filterType: nat, addrs: seq<Address>, addr: Address, h: nat)
    requires RegCount(n)
    ensures Listed(n, filterType, addrs + [addr], h) <==> Listed(n, filterType, addrs, h) || HashOf(n, filterType, addr) == h
  {
    hide HashOf;
    var more := addrs + [addr];
    assert more[|addrs|] == addr;
    forall k | 0 <= k < |addrs| ensures more[k] == addrs[k] {
    }
    if Listed(n, filterType, addrs, h) {
      var k :| 0 <= k < |addrs| && HashOf(n, filterType, addrs[k]) == h;
      assert HashOf(n, filterType, more[k]) == h;
    }
  }

  /** Rebuilds the shadow table from the list and writes it to the hardware. */
  method UpdateMcAddrList(n: nat, filterType: nat, addrs: seq<Address>, shadow: array<nat>, mta: array<nat>)
    requires RegCount(n) && shadow.Length == MAX_MTA_REG && mta.Length >= n && shadow != mta
    modifies shadow, mta
    ensures Filters(shadow[..], n, filterType, addrs) && Filters(mta[..], n, filterType, addrs)
    ensures forall r :: n <= r < mta.Length ==> mta[r] == old(mta[r])
  {
    hide HashOf, Or, Bit, Pow2;
    var i := 0;
    while i < MAX_MTA_REG
      invariant i <= MAX_MTA_REG && forall r :: 0 <= r < i ==> shadow[r] == 0
      modifies shadow
    {
      shadow[i] := 0;
      i := i + 1;
    }
    ClearedFilters(shadow[..], n, filterType);
    i := 0;
    assert addrs[..0] == [];
    while i < |addrs|
      invariant i <= |addrs| && Filters(shadow[..], n, filterType, addrs[..i])
      modifies shadow
    {
      var hash := HashMcAddr(n, filterType, addrs[i]);
      FiltersMore(shadow[..], n, filterType, addrs[..i], addrs[i]);
      var reg, bit := hash / 32, hash % 32;
      shadow[reg] := Or(shadow[reg], Pow2(bit));
      assert addrs[..i] + [addrs[i]] == addrs[..i + 1];
      i := i + 1;
    }
    assert addrs[..i] == addrs;
    i := n;
    while i > 0
      invariant 0 <= i <= n && forall r :: i <= r < n ==> mta[r] == shadow[r]
      invariant forall r :: n <= r < mta.Length ==> mta[r] == old(mta[r])
      modifies mta
    {
      i := i - 1;
      mta[i] := shadow[i];
    }
  }
}
