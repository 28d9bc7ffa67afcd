/** Rings seen from a moving position: a sequence read once around, starting anywhere. */
module Rotation {

  /** The ring sizes of the driver: descriptors and memory descriptors. */
  predicate RingSize(n: nat) { n == 512 || n == 256 }

  /** The slot of an absolute position. */
  function Slot(p: nat, n: nat): (r: nat)
    requires RingSize(n)
    ensures r < n
  {
    if n == 512 then p % 512 else p % 256
  }

  lemma SlotStep(p: nat, j: nat, n: nat)
    requires RingSize(n) && j <= n
    ensures Slot(p + j, n) == if Slot(p, n) + j < n then Slot(p, n) + j else Slot(p, n) + j - n
  {
    if n == 512 {
      var q, r := p / 512, p % 512;
      Place512(q, r);
      Place512(q, r + j);
      Place512(q + 1, r + j - 512);
      assert p == 512 * q + r;
    } else {
      var q, r := p / 256, p % 256;
      Place256(q, r);
      Place256(q, r + j);
      Place256(q + 1, r + j - 256);
      assert p == 256 * q + r;
    }
  }

  /** Moving on from a slot is moving on from its position. */
  lemma SlotAdds(p: nat, j: nat, n: nat)
    requires RingSize(n) && j <= n
    ensures Slot(Slot(p, n) + j, n) == Slot(p + j, n)
  {
    hide Slot;
    SlotSmall(Slot(p, n), n);
    SlotStep(p, j, n);
    SlotStep(Slot(p, n), j, n);
  }

  lemma SlotSmall(r: nat, n: nat)
    requires RingSize(n) && r < n
    ensures Slot(r, n) == r
  {
  }

  lemma Place512(q: int, r: int)
    ensures 0 <= r < 512 ==> (512 * q + r) % 512 == r
  {
  }

  lemma Place256(q: int, r: int)
    ensures 0 <= r < 256 ==> (256 * q + r) % 256 == r
  {
  }

  /** Two positions less than one turn apart lie on different slots. */
  lemma DistinctSlots(p: nat, q: nat, n: nat)
    requires RingSize(n) && p < q < p + n
    ensures Slot(p, n) != Slot(q, n)
  {
    hide Slot;
    SlotStep(p, q - p, n);
  }

  /** The ring read from absolute position p on. */
  function Rotate<T>(ring: seq<T>, p: nat): (r: seq<T>)
    requires RingSize(|ring|)
    ensures |r| == |ring|
    ensures forall j :: 0 <= j < |r| ==> r[j] == ring[Slot(p + j, |ring|)]
  {
    seq(|ring|, j requires 0 <= j < |ring| => ring[Slot(p + j, |ring|)])
  }

  /** Writing a slot of the ring writes one place of the rotated view. */
  lemma RotateUpdate<T>(ring: seq<T>, p: nat, j: nat, x: T)
    requires RingSize(|ring|) && j < |ring|
    ensures Rotate(ring[Slot(p + j, |ring|) := x], p) == Rotate(ring, p)[j := x]
  {
    hide Slot;
    var after := ring[Slot(p + j, |ring|) := x];
    forall i | 0 <= i < |ring| ensures Rotate(after, p)[i] == Rotate(ring, p)[j := x][i] {
      if i < j {
        DistinctSlots(p + i, p + j, |ring|);
      } else if j < i {
        DistinctSlots(p + j, p + i, |ring|);
      }
    }
  }

  /** Moving the start forward turns the view. */
  lemma RotateForward<T>(ring: seq<T>, p: nat, k: nat)
    requires RingSize(|ring|) && k <= |ring|
    ensures Rotate(ring, p + k) == Rotate(ring, p)[k..] + Rotate(ring, p)[..k]
  {
    hide Slot;
    var n := |ring|;
    forall j | 0 <= j < n ensures Rotate(ring, p + k)[j] == (Rotate(ring, p)[k..] + Rotate(ring, p)[..k])[j] {
      if j < n - k {
        assert p + k + j == p + (k + j);
      } else {
        SlotStep(p + (k + j - n), n, n);
        assert p + (k + j - n) + n == p + k + j;
      }
    }
  }

  lemma RotateZero<T>(ring: seq<T>)
    requires RingSize(|ring|)
    ensures Rotate(ring, 0) == ring
  {
  }

  // ------------------------------------------------------------ sums around the ring

  /** A sum over the places of a sequence, weighted by f. */
  function Sum<T>(s: seq<T>, f: T -> nat): nat {
    if s == [] then 0 else f(s[0]) + Sum(s[1..], f)
  }

  lemma {:induction false} SumConcat<T>(s: seq<T>, t: seq<T>, f: T -> nat)
    ensures Sum(s + t, f) == Sum(s, f) + Sum(t, f)
  {
    if s == [] {
      assert s + t == t;
    } else {
      assert (s + t)[1..] == s[1..] + t;
      SumConcat(s[1..], t, f);
    }
  }

  lemma SumOne<T>(x: T, f: T -> nat)
    ensures Sum([x], f) == f(x)
  {
    assert [x][1..] == [];
  }

  /** The rotated ring is the ring cut at the slot of p. */
  lemma RotateCut<T>(ring: seq<T>, p: nat)
    requires RingSize(|ring|)
    ensures var k := Slot(p, |ring|); Rotate(ring, p) == ring[k..] + ring[..k]
  {
    hide Slot;
    var k := Slot(p, |ring|);
    forall j | 0 <= j < |ring| ensures Rotate(ring, p)[j] == (ring[k..] + ring[..k])[j] {
      SlotStep(p, j, |ring|);
    }
  }

  /** The sum does not depend on where the ring is cut. */
  lemma SumRotate<T>(ring: seq<T>, p: nat, f: T -> nat)
    requires RingSize(|ring|)
    ensures Sum(Rotate(ring, p), f) == Sum(ring, f)
  {
    hide Slot, Rotate;
    var k := Slot(p, |ring|);
    RotateCut(ring, p);
    SumConcat(ring[k..], ring[..k], f);
    SumConcat(ring[..k], ring[k..], f);
    assert ring[..k] + ring[k..] == ring;
  }
}
