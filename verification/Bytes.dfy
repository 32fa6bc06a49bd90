/** Bytes, bits and little-endian numerals: the vocabulary shared by the SMS modules. */
module Bytes {

  type byte = x: int | 0 <= x < 256

  type bit = x: int | 0 <= x < 2

  datatype Option<+T> = None | Some(value: T)

  /** Bit `k` of `x`, least significant first. */
  function Bit(x: nat, k: nat): bit {
    if k == 0 then x % 2 else Bit(x / 2, k - 1)
  }

  /** `x | (v << k)` on unsigned numbers, for a single bit `v`. */
  function OrBit(x: nat, k: nat, v: bit): nat {
    if k == 0 then (if v == 1 && x % 2 == 0 then x + 1 else x)
    else 2 * OrBit(x / 2, k - 1, v) + x % 2
  }

  function Pow2(k: nat): (p: nat)
    ensures p > 0
  {
    if k == 0 then 1 else 2 * Pow2(k - 1)
  }

  lemma {:induction false} OrBitBound(x: nat, k: nat, v: bit, width: nat)
    requires k < width && x < Pow2(width)
    ensures OrBit(x, k, v) < Pow2(width)
  {
    if k > 0 {
      OrBitBound(x / 2, k - 1, v, width - 1);
    }
  }

  /** Or-ing a bit in changes that bit only, and there it is a disjunction. */
  lemma {:induction false} BitOfOrBit(x: nat, k: nat, v: bit, j: nat)
    ensures Bit(OrBit(x, k, v), j) == if j != k then Bit(x, j) else if v == 1 then 1 else Bit(x, j)
  {
    var y := OrBit(x, k, v);
    if k > 0 {
      assert y / 2 == OrBit(x / 2, k - 1, v) && y % 2 == x % 2;
      if j > 0 {
        BitOfOrBit(x / 2, k - 1, v, j - 1);
      }
    } else {
      assert y / 2 == x / 2;
    }
  }

  lemma {:induction false} BitOfZero(k: nat)
    ensures Bit(0, k) == 0
  {
    if k > 0 {
      BitOfZero(k - 1);
    }
  }

  /** The number whose binary digits, least significant first, are `bits`. */
  function FromBits(bits: seq<bit>): nat {
    if bits == [] then 0 else bits[0] + 2 * FromBits(bits[1..])
  }

  /** The `width` low bits of `x`. */
  function ToBits(x: nat, width: nat): (bits: seq<bit>)
    ensures |bits| == width
    ensures forall k :: 0 <= k < width ==> bits[k] == Bit(x, k)
  {
    if width == 0 then [] else [x % 2] + ToBits(x / 2, width - 1)
  }

  lemma {:induction false} FromBitsToBits(x: nat, width: nat)
    ensures FromBits(ToBits(x, width)) == x % Pow2(width)
  {
    if width > 0 {
      FromBitsToBits(x / 2, width - 1);
      var p := Pow2(width - 1);
      assert ToBits(x, width)[1..] == ToBits(x / 2, width - 1);
      HalfMod(x, p);
    }
  }

  lemma {:induction false} FromBitsToBitsSmall(x: nat, width: nat)
    requires x < Pow2(width)
    ensures FromBits(ToBits(x, width)) == x
  {
    if width > 0 {
      FromBitsToBitsSmall(x / 2, width - 1);
      assert ToBits(x, width)[1..] == ToBits(x / 2, width - 1);
    }
  }

  lemma HalfMod(x: nat, p: nat)
    requires p > 0
    ensures x % 2 + 2 * (x / 2 % p) == x % (2 * p)
  {
    var h := x / 2;
    var q, r := h / p, h % p;
    var s := x % 2 + 2 * r;
    assert x == x % 2 + 2 * (p * q + r);
    assert 2 * (p * q + r) == (2 * p) * q + 2 * r;
    assert x == (2 * p) * q + s;
    assert 0 <= s < 2 * p;
    DivModUnique(x, 2 * p, q, s);
  }

  lemma DivModUnique(x: int, d: int, q: int, r: int)
    requires d > 0 && 0 <= r < d && x == d * q + r
    ensures x % d == r
  {
    var q' := x / d;
    var k := q - q';
    assert d * q - d * q' == d * k;
    assert d * k == x % d - r;
    MultipleBelow(d, k);
  }

  lemma MultipleBelow(d: int, k: int)
    requires d > 0 && -d < d * k < d
    ensures k == 0
  {
  }

  lemma {:induction false} FromBitsBound(bits: seq<bit>)
    ensures FromBits(bits) < Pow2(|bits|)
  {
    if bits != [] {
      FromBitsBound(bits[1..]);
    }
  }

  lemma {:induction false} BitOfFromBits(bits: seq<bit>, k: nat)
    requires k < |bits|
    ensures Bit(FromBits(bits), k) == bits[k]
  {
    var x := FromBits(bits);
    assert x / 2 == FromBits(bits[1..]) && x % 2 == bits[0];
    if k > 0 {
      BitOfFromBits(bits[1..], k - 1);
    }
  }

  /** `v` shifted left by `k` bits. */
  function ShiftLeft(v: nat, k: nat): nat {
    if k == 0 then v else 2 * ShiftLeft(v, k - 1)
  }

  /** `v` shifted right by `k` bits. */
  function ShiftRight(v: nat, k: nat): nat {
    if k == 0 then v else ShiftRight(v / 2, k - 1)
  }

  lemma {:induction false} BitOfShifted(v: nat, k: nat, j: nat)
    ensures Bit(ShiftRight(v, k), j) == Bit(v, k + j)
  {
    if k > 0 {
      BitOfShifted(v / 2, k - 1, j);
    }
  }

  lemma {:induction false} ShiftedBound(v: nat, k: nat, width: nat)
    requires k <= width && v < Pow2(width)
    ensures ShiftRight(v, k) < Pow2(width - k)
  {
    if k > 0 {
      ShiftedBound(v / 2, k - 1, width - 1);
    }
  }

  lemma {:induction false} FromBitsConcat(a: seq<bit>, b: seq<bit>)
    ensures FromBits(a + b) == FromBits(a) + ShiftLeft(FromBits(b), |a|)
  {
    if a == [] {
      assert a + b == b;
    } else {
      assert (a + b)[1..] == a[1..] + b;
      FromBitsConcat(a[1..], b);
    }
  }

  lemma {:induction false} ShiftLeftZero(k: nat)
    ensures ShiftLeft(0, k) == 0
  {
    if k > 0 {
      ShiftLeftZero(k - 1);
    }
  }

  lemma {:induction false} FromBitsZeros(n: nat)
    ensures FromBits(seq(n, _ => 0)) == 0
  {
    if n > 0 {
      var z := seq(n, _ => 0);
      assert z[1..] == seq(n - 1, _ => 0);
      FromBitsZeros(n - 1);
    }
  }

  /** The number whose digits in base `base`, least significant first, are `digits`. */
  function LittleEndian(digits: seq<nat>, base: nat): nat {
    if digits == [] then 0 else digits[0] + base * LittleEndian(digits[1..], base)
  }

  // ---------------------------------------------------------------- writing into the middle of a buffer

  /** Nothing outside `[at, end)` has changed. */
  twostate predicate SameOutside(buffer: array<byte>, at: nat, end: nat)
    reads buffer
  {
    forall x :: 0 <= x < buffer.Length && !(at <= x < end) ==> buffer[x] == old(buffer[x])
  }

  /** Nothing from `end` on has changed. */
  twostate predicate SameFrom(buffer: array<byte>, end: nat)
    reads buffer
  {
    forall x :: end <= x < buffer.Length ==> buffer[x] == old(buffer[x])
  }

  /** `block` stands at `at` in `s`, and outside `[at, end)` `s` is still `was`. */
  ghost predicate Holds(s: seq<byte>, at: nat, end: nat, block: seq<byte>, was: seq<byte>) {
    && at + |block| <= end <= |s| == |was|
    && s[..at] == was[..at] && s[end..] == was[end..]
    && s[at..at + |block|] == block
  }

  lemma HoldsWiden(s: seq<byte>, at: nat, end: nat, wider: nat, block: seq<byte>, was: seq<byte>)
    requires Holds(s, at, end, block, was) && end <= wider <= |s|
    ensures Holds(s, at, wider, block, was)
  {
    assert s[wider..] == s[end..][wider - end..] && was[wider..] == was[end..][wider - end..];
  }

  lemma HoldsOutside(s: seq<byte>, at: nat, end: nat, block: seq<byte>, was: seq<byte>)
    requires Holds(s, at, end, block, was)
    ensures forall x :: 0 <= x < |s| && !(at <= x < end) ==> s[x] == was[x]
  {
    forall x | 0 <= x < |s| && !(at <= x < end)
      ensures s[x] == was[x]
    {
      if x < at {
        assert s[..at][x] == was[..at][x];
      } else {
        assert s[end..][x - end] == was[end..][x - end];
      }
    }
  }

  lemma WriteNext(s: seq<byte>, at: nat, end: nat, block: seq<byte>, was: seq<byte>, v: byte)
    requires Holds(s, at, end, block, was) && at + |block| < end
    ensures Holds(s[at + |block| := v], at, end, block + [v], was)
  {
    var s' := s[at + |block| := v];
    assert s'[..at] == s[..at] && s'[end..] == s[end..];
    assert s'[at..at + |block| + 1] == s[at..at + |block|] + [v];
  }

  lemma WriteAgain(s: seq<byte>, at: nat, end: nat, block: seq<byte>, was: seq<byte>, q: nat, v: byte)
    requires Holds(s, at, end, block, was) && q < |block|
    ensures s[at + q] == block[q]
    ensures Holds(s[at + q := v], at, end, block[q := v], was)
  {
    var s' := s[at + q := v];
    assert s[at..at + |block|][q] == block[q];
    assert s'[..at] == s[..at] && s'[end..] == s[end..];
    assert s'[at..at + |block|] == s[at..at + |block|][q := v];
  }
}
