/** Latency tolerance values: a ten-bit value scaled by a power of 32, section 6.18 of the PCI Express
    Base Specification 3.0, as the driver encodes, compares and decodes them. */
module Ltr {

  const VALUE_MASK: nat := 0x3FF
  const SCALE_MAX: nat := 5

  function Scale(s: nat): (r: nat)
    ensures r > 0
  {
    if s == 0 then 1 else 32 * Scale(s - 1)
  }

  /** Division rounded up. */
  function DivRoundUp(v: nat, m: nat): nat
    requires m > 0
  {
    (v + m - 1) / m
  }

  /** Scale and value in one number: the scale is in bits 10 and up. */
  function Packed(scale: nat, value: nat): nat { scale * 1024 + value }

  /** The latency, in nanoseconds, that the platform's configuration register stands for. */
  function Decode(enc: nat): nat { enc % 1024 * Scale(enc / 1024 % 8) }

  lemma Unpack(scale: nat, value: nat)
    requires scale < 8 && value <= VALUE_MASK
    ensures Decode(Packed(scale, value)) == value * Scale(scale)
  {
    hide Scale;
    Fields(scale, value);
  }

  lemma Fields(scale: nat, value: nat)
    requires scale < 8 && value <= VALUE_MASK
    ensures Packed(scale, value) % 1024 == value && Packed(scale, value) / 1024 % 8 == scale
  {
  }

  datatype Encoded = Invalid | Encoded(enc: nat)

  // ------------------------------------------------------------ arithmetic

  lemma Times(a: nat, b: nat, m: nat)
    ensures a <= b ==> a * m <= b * m
    ensures a < b && m > 0 ==> a * m < b * m
  {
  }

  /** What rounding up means. */
  lemma RoundUp(v: nat, m: nat)
    requires m > 0
    ensures var q := DivRoundUp(v, m); v <= q * m < v + m
  {
    var q := (v + m - 1) / m;
    assert v + m - 1 == q * m + (v + m - 1) % m;
  }

  lemma RoundUpIs(v: nat, m: nat, q: nat)
    requires m > 0 && v <= q * m < v + m
    ensures DivRoundUp(v, m) == q
  {
    var p := DivRoundUp(v, m);
    RoundUp(v, m);
    Apart(p, q, m);
    Apart(q, p, m);
  }

  lemma Apart(p: nat, q: nat, m: nat)
    ensures p < q ==> p * m + m <= q * m
  {
    if p < q {
      Times(p + 1, q, m);
      assert (p + 1) * m == p * m + m;
    }
  }

  lemma Regroup(a: nat, b: nat, m: nat)
    ensures b * (32 * m) == b * 32 * m && (a + 31) * m == a * m + 31 * m
  {
  }

  /** Rounding up twice is rounding up once, by the product. */
  lemma RoundUpTwice(v: nat, m: nat)
    requires m > 0
    ensures DivRoundUp(DivRoundUp(v, m), 32) == DivRoundUp(v, 32 * m)
  {
    hide DivRoundUp;
    var a := DivRoundUp(v, m);
    var b := DivRoundUp(a, 32);
    RoundUp(v, m);
    RoundUp(a, 32);
    Times(a, b * 32, m);
    Times(b * 32, a + 31, m);
    Regroup(a, b, m);
    RoundUpIs(v, 32 * m, b);
  }

  lemma {:induction false} ScaleGrows(s: nat, t: nat)
    requires s < t
    ensures Scale(t) >= 32 * Scale(s)
  {
    if s + 1 < t {
      ScaleGrows(s, t - 1);
    }
  }

  // ------------------------------------------------------------ the encoder

  /** The scale is the least at which the latency, rounded up, fits ten bits. */
  predicate Fits(v: nat, scale: nat, value: nat) {
    && value == DivRoundUp(v, Scale(scale)) && value <= VALUE_MASK
    && (scale > 0 ==> DivRoundUp(v, Scale(scale - 1)) > VALUE_MASK)
  }

  /** The encoder of the driver: divide by 32 until the value fits, and fail if the scale does not. */
  method Encode(latency: nat) returns (result: Encoded, scale: nat, value: nat)
    ensures Fits(latency, scale, value)
    ensures result == if scale <= SCALE_MAX then Encoded.Encoded(Packed(scale, value)) else Invalid
    ensures value <= 1023 && latency <= value * Scale(scale) < latency + Scale(scale)
    ensures scale > 0 ==> latency > 1023 * Scale(scale - 1)
    ensures result == if scale <= 5 then Encoded.Encoded(scale * 1024 + value) else Invalid
  {
    value, scale := latency, 0;
    while value > VALUE_MASK
      invariant value == DivRoundUp(latency, Scale(scale))
      invariant scale > 0 ==> DivRoundUp(latency, Scale(scale - 1)) > VALUE_MASK
      decreases value
    {
      scale := scale + 1;
      RoundUpTwice(latency, Scale(scale - 1));
      value := DivRoundUp(value, 32);
    }
    RoundUp(latency, Scale(scale));
    if scale > 0 {
      BeyondTen(latency, Scale(scale - 1));
    }
    if scale > SCALE_MAX {
      result := Invalid;
    } else {
      result := Encoded.Encoded(Packed(scale, value));
    }
  }

  lemma BeyondTen(v: nat, m: nat)
    requires m > 0 && DivRoundUp(v, m) > VALUE_MASK
    ensures v > 1023 * m
  {
    RoundUp(v, m);
    Times(1024, DivRoundUp(v, m), m);
  }

  /** The scales in nanoseconds. */
  lemma Scales()
    ensures Scale(0) == 1 && Scale(1) == 32 && Scale(2) == 1024 && Scale(3) == 32768 && Scale(4) == 1048576 && Scale(5) == 33554432
  {
    TopScale();
    assert Scale(3) == 32 * Scale(2) && Scale(4) == 32 * Scale(3);
  }

  /** A scale fits exactly one way. */
  lemma OneFit(v: nat, s: nat, m: nat, t: nat, n: nat)
    requires Fits(v, s, m) && Fits(v, t, n)
    ensures s == t && m == n
  {
    if s < t {
      NoEarlier(v, s, t);
    } else if t < s {
      NoEarlier(v, t, s);
    }
  }

  /** If a scale fits, no later one is the least. */
  lemma {:induction false} NoEarlier(v: nat, s: nat, t: nat)
    requires s < t && DivRoundUp(v, Scale(s)) <= VALUE_MASK
    ensures DivRoundUp(v, Scale(t - 1)) <= VALUE_MASK
  {
    if s < t - 1 {
      NoEarlier(v, s, t - 1);
      RoundUpTwice(v, Scale(t - 2));
    }
  }

  /** Every latency of 32 bits fits with a scale of at most 5; in general those up to 1023 * 2^25. */
  lemma ScaleBound(v: nat, scale: nat, value: nat)
    requires Fits(v, scale, value)
    ensures scale <= SCALE_MAX <==> v <= VALUE_MASK * 0x200_0000
    ensures v < 0x1_0000_0000 ==> scale <= SCALE_MAX
  {
    var top := DivRoundUp(v, Scale(5));
    TopScale();
    RoundUp(v, 0x200_0000);
    if scale > 5 && top <= VALUE_MASK {
      NoEarlier(v, 5, scale);
    }
    if scale <= 5 && top > VALUE_MASK && scale < 5 {
      NoEarlier(v, scale, 6);
    }
  }

  /** Decoding gives at least the latency, and less than one step more. */
  lemma DecodedBounds(v: nat, scale: nat, value: nat)
    requires Fits(v, scale, value) && scale <= SCALE_MAX
    ensures v <= Decode(Packed(scale, value)) < v + Scale(scale)
  {
    hide Decode, Packed, Scale, DivRoundUp;
    RoundUp(v, Scale(scale));
    Unpack(scale, value);
  }

  /** Decoding as the driver does it, in 32 bits.  Scale 7 asks for a shift by 35, which has no result. */
  function Decode32(enc: nat): nat
    requires enc / 1024 % 8 <= 6
  {
    Decode(enc) % 0x1_0000_0000
  }

  /** The 32-bit decoding of the driver's own encodings keeps these bounds exactly up to 127 * 2^25. */
  lemma Decoded32Exactly(v: nat, scale: nat, value: nat)
    requires Fits(v, scale, value) && scale <= SCALE_MAX
    ensures Packed(scale, value) / 1024 % 8 <= 6
    ensures v <= Decode32(Packed(scale, value)) < v + Scale(scale) <==> v <= 127 * 0x200_0000
    ensures v <= 127 * 0x200_0000 <==> Decode(Packed(scale, value)) < 0x1_0000_0000
  {
    hide Scale, DivRoundUp, Packed, Decode;
    RoundUp(v, Scale(scale));
    Fields(scale, value);
    Unpack(scale, value);
    TopScale();
    if scale < SCALE_MAX {
      ScaleGrows(scale, SCALE_MAX);
      Times(value, VALUE_MASK, Scale(scale));
    } else {
      Carries(v, value);
    }
  }

  lemma TopScale()
    ensures Scale(SCALE_MAX) == 0x200_0000
  {
    assert Scale(2) == 1024 && Scale(3) == 32 * Scale(2) && Scale(4) == 32 * Scale(3) && Scale(5) == 32 * Scale(4);
  }

  lemma Carries(v: nat, value: nat)
    requires v <= value * 0x200_0000 < v + 0x200_0000
    ensures v <= value * 0x200_0000 % 0x1_0000_0000 < v + 0x200_0000 <==> v <= 127 * 0x200_0000
    ensures v <= 127 * 0x200_0000 <==> value * 0x200_0000 < 0x1_0000_0000
  {
  }

  /** Value 128 at scale 5 is decoded as nothing. */
  lemma LargeLatencyVanishes()
    ensures Fits(128 * 0x200_0000, SCALE_MAX, 128) && Decode32(Packed(SCALE_MAX, 128)) == 0
  {
    hide Scale, DivRoundUp;
    TopScale();
    ScaleStep(SCALE_MAX - 1);
    Unpack(SCALE_MAX, 128);
    RoundUpIs(128 * 0x200_0000, Scale(SCALE_MAX), 128);
    RoundUpIs(128 * 0x200_0000, Scale(SCALE_MAX - 1), 4096);
  }

  // ------------------------------------------------------------ comparing encodings

  /** Encodings whose value could not have been given at a smaller scale. */
  predicate Normal(scale: nat, value: nat) { value <= VALUE_MASK && (scale == 0 || value >= 32) }

  lemma FitIsNormal(v: nat, scale: nat, value: nat)
    requires Fits(v, scale, value)
    ensures Normal(scale, value)
  {
    if scale > 0 {
      RoundUpTwice(v, Scale(scale - 1));
    }
  }

  lemma LargerScale(s: nat, m: nat, t: nat, n: nat)
    requires s < t && m <= VALUE_MASK && n >= 32
    ensures m * Scale(s) < n * Scale(t)
  {
    ScaleGrows(s, t);
    Times(32, n, Scale(t));
    Times(m, 1024, Scale(s));
  }

  /** Encodings of the driver compare as the latencies they stand for. */
  lemma ComparesAsLatency(s: nat, m: nat, t: nat, n: nat)
    requires Normal(s, m) && Normal(t, n) && s <= SCALE_MAX && t <= SCALE_MAX
    ensures Packed(s, m) <= Packed(t, n) <==> Decode(Packed(s, m)) <= Decode(Packed(t, n))
  {
    hide Decode, Scale;
    Unpack(s, m);
    Unpack(t, n);
    if s < t {
      LargerScale(s, m, t, n);
    } else if t < s {
      LargerScale(t, n, s, m);
    } else {
      Times(m, n, Scale(s));
      Times(n, m, Scale(s));
    }
  }

  // ------------------------------------------------------------ the platform's limit

  function Min(a: nat, b: nat): nat { if a <= b then a else b }

  function Max(a: nat, b: nat): nat { if a >= b then a else b }

  /** What the driver reports: its own encoding, cut off at the larger of the platform's two. */
  function Reported(enc: nat, snoop: nat, noSnoop: nat): nat {
    var limit := Max(snoop, noSnoop);
    if enc > limit then limit else enc
  }

  /** Cutting off encodings is cutting off latencies, at the larger of two. */
  predicate CutsLatency(enc: nat, snoop: nat, noSnoop: nat) {
    Decode(Reported(enc, snoop, noSnoop)) == Min(Decode(enc), Max(Decode(snoop), Decode(noSnoop)))
  }

  /** The pairs of limits that cut latencies off rightly.  Below scale 6, the larger encoding must also stand
      for the larger latency and have scale zero or a value of 32 or more.  An encoding beyond is never
      reached, so the larger latency must be no less than any the driver can encode. */
  predicate CutsRightly(snoop: nat, noSnoop: nat) {
    var limit, latency := Max(snoop, noSnoop), Max(Decode(snoop), Decode(noSnoop));
    if limit < Packed(SCALE_MAX + 1, 0) then Decode(limit) == latency && (limit < 1024 || limit % 1024 >= 32)
    else latency >= VALUE_MASK * Scale(SCALE_MAX)
  }

  /** For all values of the two registers, the cut-off is right for all latencies the driver can encode
      exactly when they are such a pair. */
  lemma CutOffExactly(snoop: nat, noSnoop: nat)
    ensures (forall v: nat, s: nat, m: nat :: Fits(v, s, m) && s <= SCALE_MAX ==> CutsLatency(Packed(s, m), snoop, noSnoop))
            <==> CutsRightly(snoop, noSnoop)
  {
    hide Scale, Fits, DivRoundUp, Decode;
    var limit := Max(snoop, noSnoop);
    if limit >= Packed(SCALE_MAX + 1, 0) {
      LimitBeyond(snoop, noSnoop);
    } else if Decode(limit) == Max(Decode(snoop), Decode(noSnoop)) {
      LimitInReach(limit / 1024, limit % 1024, snoop, noSnoop);
    } else {
      LimitTooLow(snoop, noSnoop);
    }
  }

  lemma LimitInReach(t: nat, n: nat, snoop: nat, noSnoop: nat)
    requires t <= SCALE_MAX && n <= VALUE_MASK && Max(snoop, noSnoop) == Packed(t, n)
    requires Max(Decode(snoop), Decode(noSnoop)) == Decode(Packed(t, n))
    ensures (forall v: nat, s: nat, m: nat :: Fits(v, s, m) && s <= SCALE_MAX ==> CutsLatency(Packed(s, m), snoop, noSnoop))
            <==> t == 0 || n >= 32
  {
    hide Decode, Packed;
    if t == 0 || n >= 32 {
      forall v: nat, s: nat, m: nat | Fits(v, s, m) && s <= SCALE_MAX
        ensures CutsLatency(Packed(s, m), snoop, noSnoop)
      {
        FitIsNormal(v, s, m);
        ComparesAsLatency(s, m, t, n);
      }
    } else {
      CutOffFails(t, n);
      PackedGrows(t - 1, 1023, t, n);
      assert !CutsLatency(Packed(t - 1, 1023), snoop, noSnoop);
    }
  }

  lemma PackedGrows(s: nat, m: nat, t: nat, n: nat)
    requires s < t && m <= VALUE_MASK
    ensures Packed(s, m) < Packed(t, n)
  {
  }

  /** The largest encoding is cut off too low when the smaller of the two stands for more. */
  lemma LimitTooLow(snoop: nat, noSnoop: nat)
    requires var limit := Max(snoop, noSnoop);
      limit < Packed(SCALE_MAX + 1, 0) && Decode(limit) != Max(Decode(snoop), Decode(noSnoop))
    ensures Fits(VALUE_MASK * Scale(SCALE_MAX), SCALE_MAX, VALUE_MASK)
    ensures !CutsLatency(Packed(SCALE_MAX, VALUE_MASK), snoop, noSnoop)
  {
    hide Scale, DivRoundUp, Decode;
    LargestFits(SCALE_MAX);
    Unpack(SCALE_MAX, VALUE_MASK);
    LargestDecodes(snoop);
    LargestDecodes(noSnoop);
  }

  /** Every encoding below scale 6 but the last stands for less than the last. */
  lemma LargestDecodes(enc: nat)
    ensures enc < Packed(SCALE_MAX, VALUE_MASK) ==> Decode(enc) < VALUE_MASK * Scale(SCALE_MAX)
  {
    var t, n := enc / 1024, enc % 1024;
    hide Scale;
    if enc < Packed(SCALE_MAX, VALUE_MASK) {
      if t < SCALE_MAX {
        LargerScale(t, n, SCALE_MAX, VALUE_MASK);
      } else {
        Times(n, VALUE_MASK, Scale(SCALE_MAX));
      }
    }
  }

  lemma LimitBeyond(snoop: nat, noSnoop: nat)
    requires Max(snoop, noSnoop) >= Packed(SCALE_MAX + 1, 0)
    ensures (forall v: nat, s: nat, m: nat :: Fits(v, s, m) && s <= SCALE_MAX ==> CutsLatency(Packed(s, m), snoop, noSnoop))
            <==> Max(Decode(snoop), Decode(noSnoop)) >= VALUE_MASK * Scale(SCALE_MAX)
  {
    hide Scale, Decode, DivRoundUp;
    LargestFits(SCALE_MAX);
    Unpack(SCALE_MAX, VALUE_MASK);
    forall v: nat, s: nat, m: nat | Fits(v, s, m) && s <= SCALE_MAX
      ensures Reported(Packed(s, m), snoop, noSnoop) == Packed(s, m) && Decode(Packed(s, m)) <= VALUE_MASK * Scale(SCALE_MAX)
    {
      FitIsNormal(v, s, m);
      ComparesAsLatency(s, m, SCALE_MAX, VALUE_MASK);
    }
  }

  lemma ScaleStep(s: nat)
    ensures Scale(s + 1) == 32 * Scale(s)
  {
  }

  /** The largest latency of each scale. */
  lemma LargestFits(s: nat)
    ensures Fits(1023 * Scale(s), s, 1023)
  {
    hide Scale, DivRoundUp;
    RoundUpIs(1023 * Scale(s), Scale(s), 1023);
    if s > 0 {
      ScaleStep(s - 1);
      RoundUpIs(1023 * Scale(s), Scale(s - 1), 32736);
    }
  }

  /** A latency whose encoding passes under a limit that stands for less. */
  lemma CutOffFails(t: nat, n: nat)
    requires 0 < t <= SCALE_MAX && n < 32
    ensures Fits(1023 * Scale(t - 1), t - 1, 1023)
    ensures Decode(Packed(t, n)) < Decode(Packed(t - 1, 1023))
  {
    hide Scale, Decode, DivRoundUp;
    LargestFits(t - 1);
    Unpack(t - 1, 1023);
    Unpack(t, n);
    ScaleStep(t - 1);
    ShortOf(n, Scale(t - 1));
  }

  lemma ShortOf(n: nat, m: nat)
    requires n < 32 && m > 0
    ensures n * (32 * m) < 1023 * m
  {
    Times(32 * n, 1023, m);
    assert n * (32 * m) == 32 * n * m;
  }
}
