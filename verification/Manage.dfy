/** The command the driver leaves for the management controller: a header of eight bytes and a payload
    whose bytes add up to zero. */
module Manage {

  import opened Bits

  const MAX_DATA_LENGTH: nat := 0x6F8
  const HEADER_LENGTH: nat := 8
  const DHCP_TX_PAYLOAD_CMD: Byte := 64

  function Sum(bytes: seq<Byte>): nat {
    if bytes == [] then 0 else Sum(bytes[..|bytes| - 1]) + bytes[|bytes| - 1]
  }

  function Zeros(n: nat): (r: seq<Byte>)
    ensures |r| == n
  {
    seq(n, _ => 0)
  }

  /** Bytes that fill up the last dword. */
  function Padding(length: nat): (n: nat)
    ensures n < 4 && (length + n) % 4 == 0
  {
    (4 - length % 4) % 4
  }

  /** The interface after some bytes, filled up with zeros, are put at an offset. */
  function Put(ram: seq<Byte>, offset: nat, bytes: seq<Byte>): (r: seq<Byte>)
    requires offset + |bytes| <= |ram| && |ram| % 4 == 0
    ensures |r| == |ram|
  {
    PaddingFits(|ram|, offset + |bytes|);
    var end := offset + |bytes| + Padding(offset + |bytes|);
    ram[..offset] + bytes + Zeros(Padding(offset + |bytes|)) + ram[end..]
  }

  lemma PaddingFits(size: nat, end: nat)
    requires end <= size && size % 4 == 0
    ensures end + Padding(end) <= size
  {
  }

  lemma {:induction false} SumConcat(a: seq<Byte>, b: seq<Byte>)
    ensures Sum(a + b) == Sum(a) + Sum(b)
  {
    if b == [] {
      assert a + b == a;
    } else {
      var n := |b| - 1;
      assert (a + b)[..|a| + n] == a + b[..n];
      SumConcat(a, b[..n]);
    }
  }

  lemma SumMore(bytes: seq<Byte>, n: nat)
    requires n < |bytes|
    ensures Sum(bytes[..n + 1]) == Sum(bytes[..n]) + bytes[n]
  {
    assert bytes[..n + 1][..n] == bytes[..n];
  }

  /** Adding into eight bits. */
  function Add(sum: Byte, b: Byte): Byte { (sum + b) % 0x100 }

  lemma AddsUp(total: nat, b: Byte)
    ensures Add(total % 0x100, b) == (total + b) % 0x100
  {
    var q, r := total / 0x100, total % 0x100;
    assert total == q * 0x100 + r;
    assert r + b < 0x200;
    assert r + b < 0x100 ==> (q * 0x100 + (r + b)) % 0x100 == r + b;
    assert r + b >= 0x100 ==> ((q + 1) * 0x100 + (r + b - 0x100)) % 0x100 == r + b - 0x100;
  }

  /** Adding many. */
  function Total(sum: Byte, bytes: seq<Byte>): Byte { (sum + Sum(bytes)) % 0x100 }

  /** The byte that makes a buffer add up to zero. */
  method CalculateChecksum(buffer: seq<Byte>) returns (checksum: Byte)
    ensures (Sum(buffer) + checksum) % 0x100 == 0
  {
    var sum: Byte := 0;
    var i := 0;
    while i < |buffer|
      invariant i <= |buffer| && sum == Sum(buffer[..i]) % 0x100
    {
      SumMore(buffer, i);
      AddsUp(Sum(buffer[..i]), buffer[i]);
      sum := Add(sum, buffer[i]);
      i := i + 1;
    }
    assert buffer[..i] == buffer;
    Clears(Sum(buffer));
    checksum := (0x100 - sum) % 0x100;
  }

  lemma Clears(total: nat)
    ensures (total + (0x100 - total % 0x100) % 0x100) % 0x100 == 0
  {
  }

  /** Bytes laid over what was there. */
  function Over(was: seq<Byte>, at: nat, data: seq<Byte>): (r: seq<Byte>)
    requires at + |data| <= |was|
    ensures |r| == |was|
  {
    was[..at] + data + was[at + |data|..]
  }

  lemma OverNothing(was: seq<Byte>)
    ensures Over(was, 0, []) == was
  {
  }

  lemma OverHead(was: seq<Byte>, data: seq<Byte>)
    requires |data| <= |was|
    ensures Over(was, 0, data) == data + was[|data|..]
  {
  }

  /** Two pieces, one behind the other. */
  lemma OverMore(was: seq<Byte>, a: seq<Byte>, b: seq<Byte>)
    requires |a| + |b| <= |was|
    ensures Over(Over(was, 0, a), |a|, b) == Over(was, 0, a + b)
  {
  }

  /** One dword of the interface. */
  method WriteDword(ram: array<Byte>, i: nat, data: seq<Byte>)
    requires 4 * i + 4 <= ram.Length && |data| == 4
    modifies ram
    ensures ram[..] == Over(old(ram[..]), 4 * i, data)
  {
    ram[4 * i], ram[4 * i + 1], ram[4 * i + 2], ram[4 * i + 3] := data[0], data[1], data[2], data[3];
  }

  /** The next dword of a payload: up to four of its bytes, then zeros. */
  method NextDword(ram: array<Byte>, at: nat, more: seq<Byte>, sum: Byte, ghost was: seq<Byte>, ghost offset: nat,
      ghost done: seq<Byte>)
    returns (total: Byte)
    requires |was| == ram.Length && ram.Length % 4 == 0 && 4 * at == offset + |done|
    requires 0 < |more| <= 4 && 4 * at + 4 <= ram.Length && ram[..] == Put(was, offset, done)
    modifies ram
    ensures ram[..] == Put(was, offset, done + more) && total == Total(sum, more)
  {
    hide Put, Sum, Padding, Zeros, Over;
    var data := more + Zeros(4 - |more|);
    total := SumAll(sum, data);
    SumConcat(more, Zeros(4 - |more|));
    SumOfZeros(4 - |more|);
    PutDword(was, offset, done, more, data);
    WriteDword(ram, at, data);
  }

  /** The first dword of a payload that does not start at one: the bytes before it stay. */
  method FirstDword(ram: array<Byte>, offset: nat, first: seq<Byte>, sum: Byte) returns (total: Byte)
    requires ram.Length % 4 == 0 && offset % 4 > 0 && |first| == 4 - offset % 4 && offset + |first| <= ram.Length
    modifies ram
    ensures ram[..] == Put(old(ram[..]), offset, first) && total == Total(sum, first)
  {
    hide Put, Sum, Padding, Zeros, Over;
    var at := offset - offset % 4;
    total := SumAll(sum, first);
    PutFirst(ram[..], offset, first);
    WriteDword(ram, offset / 4, ram[at..offset] + first);
  }

  /** The rest of a payload, from a dword on. */
  method RestDwords(ram: array<Byte>, buffer: seq<Byte>, from: nat, offset: nat, sum: Byte, ghost was: seq<Byte>)
    returns (total: Byte)
    requires |was| == ram.Length && ram.Length % 4 == 0 && from <= |buffer| && (offset + from) % 4 == 0
    requires offset + |buffer| <= ram.Length && ram[..] == Put(was, offset, buffer[..from])
    modifies ram
    ensures ram[..] == Put(was, offset, buffer) && total == Total(sum, buffer[from..])
  {
    hide Put, Sum, Padding, Zeros, Over, Total;
    var dword, remaining := (offset + from) / 4, (|buffer| - from) % 4;
    var length := (|buffer| - from) / 4;
    assert 4 * dword == offset + from && from + 4 * length + remaining == |buffer|;
    total := WholeDwords(ram, buffer, from, offset, sum, was, dword, length);
    if remaining > 0 {
      var k := from + 4 * length;
      LastFits(ram.Length, offset + from, length, offset + |buffer|);
      MoreBytes(buffer, from, k, |buffer|, sum);
      total := NextDword(ram, dword + length, buffer[k..], total, was, offset, buffer[..k]);
    }
    assert buffer[..|buffer|] == buffer;
  }

  /** The dwords the rest of a payload fills. */
  method WholeDwords(ram: array<Byte>, buffer: seq<Byte>, from: nat, offset: nat, sum: Byte, ghost was: seq<Byte>, dword: nat,
      length: nat)
    returns (total: Byte)
    requires |was| == ram.Length && ram.Length % 4 == 0 && from + 4 * length <= |buffer| && 4 * dword == offset + from
    requires offset + |buffer| <= ram.Length && ram[..] == Put(was, offset, buffer[..from])
    modifies ram
    ensures ram[..] == Put(was, offset, buffer[..from + 4 * length]) && total == Total(sum, buffer[from..from + 4 * length])
  {
    hide Put, Sum, Padding, Zeros, Over, Total;
    var i := 0;
    total := sum;
    NoBytes(buffer, from, sum);
    while i < length
      invariant i <= length && ram[..] == Put(was, offset, buffer[..from + 4 * i])
      invariant total == Total(sum, buffer[from..from + 4 * i])
    {
      var k := from + 4 * i;
      MoreBytes(buffer, from, k, k + 4, sum);
      total := NextDword(ram, dword + i, buffer[k..k + 4], total, was, offset, buffer[..k]);
      i := i + 1;
    }
  }

  lemma LastFits(size: nat, at: nat, n: nat, end: nat)
    requires size % 4 == at % 4 == 0 && at + 4 * n < end <= size
    ensures at + 4 * n + 4 <= size
  {
  }

  lemma NoBytes(buffer: seq<Byte>, from: nat, sum: Byte)
    requires from <= |buffer|
    ensures sum == Total(sum, buffer[from..from])
  {
    assert buffer[from..from] == [];
  }

  /** The bytes copied so far and their sum, with some more of them. */
  lemma MoreBytes(buffer: seq<Byte>, from: nat, k: nat, n: nat, sum: Byte)
    requires from <= k <= n <= |buffer|
    ensures buffer[..k] + buffer[k..n] == buffer[..n]
    ensures Total(Total(sum, buffer[from..k]), buffer[k..n]) == Total(sum, buffer[from..n])
  {
    hide Sum;
    SumConcat(buffer[from..k], buffer[k..n]);
    assert buffer[from..k] + buffer[k..n] == buffer[from..n];
    SumTwice(sum + Sum(buffer[from..k]), Sum(buffer[k..n]));
  }

  lemma SumTwice(a: nat, b: nat)
    ensures (a % 0x100 + b) % 0x100 == (a + b) % 0x100
  {
    assert a == a / 0x100 * 0x100 + a % 0x100;
  }

  /** Copies a payload, dword by dword, to the interface and adds its bytes up.  The last dword is filled up
      with zeros; the bytes before the payload and the dwords behind it stay.  A payload that starts within
      a dword must reach its end: that many bytes are read without looking at the length. */
  method HostIfWrite(ram: array<Byte>, buffer: seq<Byte>, offset: nat, sum: Byte) returns (ok: bool, total: Byte)
    requires ram.Length % 4 == 0 && ram.Length >= MAX_DATA_LENGTH
    requires buffer == [] || offset % 4 == 0 || |buffer| >= 4 - offset % 4
    modifies ram
    ensures ok <==> buffer != [] && offset + |buffer| <= MAX_DATA_LENGTH
    ensures !ok ==> ram[..] == old(ram[..]) && total == sum
    ensures ok ==> ram[..] == Put(old(ram[..]), offset, buffer) && total == (sum + Sum(buffer)) % 0x100
    ensures ok ==> forall k :: 0 <= k < ram.Length ==>
      ram[k] == if offset <= k < offset + |buffer| then buffer[k - offset]
                else if offset + |buffer| <= k < (offset + |buffer| + 3) / 4 * 4 then 0 else old(ram[k])
  {
    hide Put, Sum, Padding, Zeros, Over;
    total := sum;
    if |buffer| == 0 || offset + |buffer| > MAX_DATA_LENGTH {
      return false, total;
    }
    ok := true;
    ghost var was := ram[..];
    var prevBytes := offset % 4;
    if prevBytes > 0 {
      var first := 4 - prevBytes;
      total := FirstDword(ram, offset, buffer[..first], total);
      total := RestDwords(ram, buffer, first, offset, total, was);
      MoreBytes(buffer, 0, first, |buffer|, sum);
    } else {
      NothingPut(ram[..], offset);
      total := RestDwords(ram, buffer, 0, offset, total, was);
    }
    assert buffer[0..] == buffer[0..|buffer|] == buffer && buffer[..0] == buffer[0..0] == [];
    PutAt(was, offset, buffer);
  }

  /** The bytes put, one by one. */
  lemma PutAt(ram: seq<Byte>, offset: nat, bytes: seq<Byte>)
    requires offset + |bytes| <= |ram| && |ram| % 4 == 0
    ensures forall k :: 0 <= k < |ram| ==>
      Put(ram, offset, bytes)[k] == if offset <= k < offset + |bytes| then bytes[k - offset]
                                    else if offset + |bytes| <= k < (offset + |bytes| + 3) / 4 * 4 then 0 else ram[k]
  {
    DwordEnd(offset + |bytes|);
    PaddingFits(|ram|, offset + |bytes|);
    hide Padding;
  }

  lemma DwordEnd(end: nat)
    ensures end + Padding(end) == (end + 3) / 4 * 4
  {
  }

  /** Adds up bytes. */
  method SumAll(sum: Byte, data: seq<Byte>) returns (total: Byte)
    ensures total == (sum + Sum(data)) % 0x100
  {
    total := sum;
    var j := 0;
    while j < |data|
      invariant j <= |data| && total == (sum + Sum(data[..j])) % 0x100
    {
      SumMore(data, j);
      AddsUp(sum + Sum(data[..j]), data[j]);
      total := Add(total, data[j]);
      j := j + 1;
    }
    assert data[..j] == data;
  }

  lemma {:induction false} SumOfZeros(n: nat)
    ensures Sum(Zeros(n)) == 0
  {
    if n > 0 {
      SumOfZeros(n - 1);
      assert Zeros(n)[..n - 1] == Zeros(n - 1);
    }
  }

  lemma NothingPut(ram: seq<Byte>, offset: nat)
    requires offset <= |ram| && |ram| % 4 == 0 && offset % 4 == 0
    ensures Put(ram, offset, []) == ram && Sum([]) == 0
  {
  }

  /** Bytes that end at a dword need no zeros. */
  lemma PutWhole(ram: seq<Byte>, offset: nat, bytes: seq<Byte>)
    requires offset + |bytes| <= |ram| && |ram| % 4 == (offset + |bytes|) % 4 == 0
    ensures Put(ram, offset, bytes) == ram[..offset] + bytes + ram[offset + |bytes|..]
  {
    NoZeros();
    assert Padding(offset + |bytes|) == 0;
  }

  /** Bytes that end in a dword are filled up to its end. */
  lemma PutPadded(ram: seq<Byte>, offset: nat, done: seq<Byte>, more: seq<Byte>)
    requires |ram| % 4 == (offset + |done|) % 4 == 0 && offset + |done| + 4 <= |ram| && 0 < |more| <= 4
    ensures Put(ram, offset, done + more) == ram[..offset] + done + (more + Zeros(4 - |more|)) + ram[offset + |done| + 4..]
  {
    var at := offset + |done|;
    PaddingOfDword(at, |more|);
    PaddingFits(|ram|, at + |more|);
    hide Padding, Zeros;
    Regroup(ram[..offset], done, more, Zeros(4 - |more|), ram[at + 4..]);
  }

  lemma Regroup(a: seq<Byte>, b: seq<Byte>, c: seq<Byte>, d: seq<Byte>, e: seq<Byte>)
    ensures a + (b + c) + d + e == a + b + (c + d) + e
  {
  }

  /** A further dword behind what is there: bytes of the payload, filled up with zeros. */
  lemma PutDword(ram: seq<Byte>, offset: nat, done: seq<Byte>, more: seq<Byte>, data: seq<Byte>)
    requires |ram| % 4 == (offset + |done|) % 4 == 0 && offset + |done| + 4 <= |ram|
    requires 0 < |more| <= 4 == |data| && data == more + Zeros(4 - |more|)
    ensures Over(Put(ram, offset, done), offset + |done|, data) == Put(ram, offset, done + more)
  {
    hide Put, Zeros;
    PutWhole(ram, offset, done);
    PutPadded(ram, offset, done, more);
    OverMiddle(ram[..offset] + done, ram[offset + |done|..], data);
  }

  lemma OverMiddle(head: seq<Byte>, rest: seq<Byte>, data: seq<Byte>)
    requires |data| <= |rest|
    ensures Over(head + rest, |head|, data) == head + data + rest[|data|..]
  {
  }

  /** The dword a payload starts in, from the payload's first byte on. */
  lemma PutFirst(ram: seq<Byte>, offset: nat, first: seq<Byte>)
    requires |ram| % 4 == 0 && |first| == 4 - offset % 4 && offset + |first| <= |ram|
    ensures var at := offset - offset % 4;
      Over(ram, at, ram[at..offset] + first) == Put(ram, offset, first)
  {
    hide Put;
    var at := offset - offset % 4;
    assert ram[..at] + ram[at..offset] == ram[..offset];
    PutWhole(ram, offset, first);
  }

  lemma NoZeros()
    ensures Zeros(0) == []
  {
  }

  lemma PaddingOfDword(at: nat, n: nat)
    requires at % 4 == 0 && 0 < n <= 4
    ensures Padding(at) == 0 && Padding(at + n) == 4 - n
  {
  }

  // ------------------------------------------------------------ the command

  /** The header: command, checksum, four reserved bytes, and the length, lower byte first. */
  function Header(checksum: Byte, length: nat): (r: seq<Byte>)
    requires length < 0x10000
    ensures |r| == HEADER_LENGTH
  {
    [DHCP_TX_PAYLOAD_CMD, checksum, 0, 0, 0, 0, length % 0x100, length / 0x100]
  }

  /** The interface after a command: header, payload, zeros up to a dword, and what was there. */
  function Command(ram: seq<Byte>, checksum: Byte, payload: seq<Byte>): seq<Byte>
    requires HEADER_LENGTH + |payload| <= |ram| && |ram| % 4 == 0 && |payload| < 0x10000
  {
    Header(checksum, |payload|) + Put(ram, HEADER_LENGTH, payload)[HEADER_LENGTH..]
  }

  /** Leaves a command if the interface is ready and the payload fits.  The payload's sum is carried
      in the header's checksum field until the checksum of the header replaces it. */
  method WriteDhcpInfo(ram: array<Byte>, buffer: seq<Byte>, ready: bool) returns (ok: bool, checksum: Byte, pending: bool)
    requires ram.Length % 4 == 0 && ram.Length >= MAX_DATA_LENGTH && |buffer| < 0x10000
    modifies ram
    ensures ok == pending == (ready && buffer != [] && HEADER_LENGTH + |buffer| <= MAX_DATA_LENGTH)
    ensures !ok ==> ram[..] == old(ram[..])
    ensures ok ==> ram[..] == Command(old(ram[..]), checksum, buffer)
    ensures ok ==> (Sum(Header(checksum, |buffer|)) + Sum(buffer)) % 0x100 == 0
    ensures ok ==> ram[0] == 64 && ram[1] == checksum && ram[2] == ram[3] == ram[4] == ram[5] == 0
                   && ram[6] == |buffer| % 256 && ram[7] == |buffer| / 256
    ensures ok ==> forall k :: 8 <= k < ram.Length ==>
      ram[k] == if k < 8 + |buffer| then buffer[k - 8] else if k < (8 + |buffer| + 3) / 4 * 4 then 0 else old(ram[k])
    ensures ok ==> (64 + checksum + |buffer| % 256 + |buffer| / 256 + Sum(buffer)) % 256 == 0
  {
    hide Put, Sum, Padding, Zeros, Over;
    ok, checksum, pending := false, 0, false;
    if !ready {
      return;
    }
    ok, checksum := HostIfWrite(ram, buffer, HEADER_LENGTH, checksum);
    if !ok {
      return;
    }
    ghost var sum := checksum;
    var header := Header(checksum, |buffer|);
    checksum := CalculateChecksum(header);
    HeaderSum(sum, checksum, |buffer|, Sum(buffer));
    OverHead(ram[..], Header(checksum, |buffer|));
    HeaderBytes(checksum, |buffer|);
    ghost var put := ram[..];
    WriteHeader(ram, Header(checksum, |buffer|));
    assert ram[..] == Header(checksum, |buffer|) + put[8..];
    pending := true;
  }

  /** The header, dword by dword. */
  method WriteHeader(ram: array<Byte>, header: seq<Byte>)
    requires ram.Length >= HEADER_LENGTH == |header|
    modifies ram
    ensures ram[..] == Over(old(ram[..]), 0, header)
  {
    hide Over;
    ghost var was := ram[..];
    var i := 0;
    OverNothing(was);
    assert header[..0] == [];
    while i < HEADER_LENGTH / 4
      invariant i <= 2 && ram[..] == Over(was, 0, header[..4 * i])
    {
      OverMore(was, header[..4 * i], header[4 * i..4 * i + 4]);
      assert header[..4 * i] + header[4 * i..4 * i + 4] == header[..4 * (i + 1)];
      WriteDword(ram, i, header[4 * i..4 * i + 4]);
      i := i + 1;
    }
    assert header[..8] == header;
  }

  lemma HeaderBytes(checksum: Byte, length: nat)
    requires length < 0x10000
    ensures Sum(Header(checksum, length)) == DHCP_TX_PAYLOAD_CMD + checksum + length % 0x100 + length / 0x100
  {
    hide Sum;
    var h := Header(checksum, length);
    SumMore(h, 0);
    SumMore(h, 1);
    SumMore(h, 2);
    SumMore(h, 3);
    SumMore(h, 4);
    SumMore(h, 5);
    SumMore(h, 6);
    SumMore(h, 7);
    NothingPut([], 0);
    assert h[..8] == h && h[..0] == [];
  }

  /** The checksum of a header that carries the payload's sum clears both. */
  lemma HeaderSum(sum: Byte, checksum: Byte, length: nat, total: nat)
    requires length < 0x10000 && sum == total % 0x100
    requires (Sum(Header(sum, length)) + checksum) % 0x100 == 0
    ensures (Sum(Header(checksum, length)) + total) % 0x100 == 0
  {
    hide Sum;
    HeaderBytes(sum, length);
    HeaderBytes(checksum, length);
    SumCarried(DHCP_TX_PAYLOAD_CMD + length % 0x100 + length / 0x100, checksum, total);
  }

  lemma SumCarried(fixed: nat, checksum: nat, total: nat)
    requires (fixed + total % 0x100 + checksum) % 0x100 == 0
    ensures (fixed + checksum + total) % 0x100 == 0
  {
    var k, r := total / 0x100, total % 0x100;
    assert total == k * 0x100 + r;
    Shifted(fixed + checksum + r, k);
  }

  lemma Shifted(x: nat, k: nat)
    requires x % 0x100 == 0
    ensures (x + k * 0x100) % 0x100 == 0
  {
    Multiple(x / 0x100 + k, x + k * 0x100);
  }

  lemma Multiple(q: nat, v: nat)
    requires v == q * 0x100
    ensures v % 0x100 == 0
  {
  }
}
