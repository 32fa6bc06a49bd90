/** GSM 7-bit packing (section 6.1.2.1 of 3GPP TS 23.038), as the user-data loop of `AsciiToPDU` does it. */
module Septets {
  import opened Bytes

  /** Octets needed for `n` septets. */
  function PackedLength(n: nat): nat { (n * 7 + 7) / 8 }

  /** Bit `k` of the septet stream of `text`; zero past its end. */
  function TextBit(text: seq<byte>, k: nat): bit {
    if k < 7 * |text| then Bit(text[k / 7], k % 7) else 0
  }

  /** Bit `k` of an octet string. */
  function DataBit(data: seq<byte>, k: nat): bit
    requires k < 8 * |data|
  {
    Bit(data[k / 8], k % 8)
  }

  /** The character codes that survive packing: the low seven bits of each character. */
  function LowSeven(text: seq<byte>): seq<byte> {
    seq(|text|, i requires 0 <= i < |text| => text[i] % 128)
  }

  /** `n` stream bits from position `from`. */
  function TextBits(text: seq<byte>, from: nat, n: nat): (bits: seq<bit>)
    ensures |bits| == n
    ensures forall j :: 0 <= j < n ==> bits[j] == TextBit(text, from + j)
  {
    seq<bit>(n, j requires 0 <= j < n => TextBit(text, from + j))
  }

  /** `n` bits of an octet string from position `from`. */
  function DataBits(data: seq<byte>, from: nat, n: nat): (bits: seq<bit>)
    requires from + n <= 8 * |data|
    ensures |bits| == n
    ensures forall j :: 0 <= j < n ==> bits[j] == DataBit(data, from + j)
  {
    seq<bit>(n, j requires 0 <= j < n => DataBit(data, from + j))
  }

  /** Octet `q` of the packed form, built from the eight stream bits it holds. */
  function PackedByte(text: seq<byte>, q: nat): byte {
    var bits := TextBits(text, 8 * q, 8);
    FromBitsBound(bits);
    assert Pow2(8) == 256;
    FromBits(bits)
  }

  function Pack(text: seq<byte>): seq<byte> {
    seq(PackedLength(|text|), q requires 0 <= q < PackedLength(|text|) => PackedByte(text, q))
  }

  /** The receiver's side: septet `i` is made of bits `7i .. 7i+6` of the octet string. */
  function Unpack(data: seq<byte>, n: nat): seq<byte>
    requires 7 * n <= 8 * |data|
  {
    seq(n, i requires 0 <= i < n => UnpackedSeptet(data, i))
  }

  function UnpackedSeptet(data: seq<byte>, i: nat): byte
    requires 7 * (i + 1) <= 8 * |data|
  {
    var bits := DataBits(data, 7 * i, 7);
    FromBitsBound(bits);
    assert Pow2(7) == 128;
    FromBits(bits)
  }

  lemma PackBitAt(text: seq<byte>, q: nat, j: nat)
    requires q < PackedLength(|text|) && j < 8
    ensures Bit(Pack(text)[q], j) == TextBit(text, 8 * q + j)
  {
    BitOfFromBits(TextBits(text, 8 * q, 8), j);
  }

  /** Bit `k` of the packed data is bit `k % 7` of character `k / 7`, and the padding bits are zero. */
  lemma PackBits(text: seq<byte>, k: nat)
    requires k < 8 * PackedLength(|text|)
    ensures DataBit(Pack(text), k) == if k < 7 * |text| then Bit(text[k / 7], k % 7) else 0
  {
    PackBitAt(text, k / 8, k % 8);
    assert 8 * (k / 8) + k % 8 == k;
  }

  /** Octet `q` begins at bit `r` of character `i`: it holds the high bits of that character, and above them the
      low bits of the next. */
  lemma PackedOctet(text: seq<byte>, q: nat, i: nat, r: nat)
    requires q < PackedLength(|text|) && i < |text| && r < 7 && 8 * q == 7 * i + r
    ensures var next: byte := if i + 1 < |text| then text[i + 1] else 0;
            Pack(text)[q] == ShiftRight(text[i] % 128, r) + ShiftLeft(next % Pow2(r + 1), 7 - r)
  {
    var next: byte := if i + 1 < |text| then text[i + 1] else 0;
    var low, high := TextBits(text, 8 * q, 7 - r), TextBits(text, 8 * q + (7 - r), r + 1);
    assert 8 * q + (7 - r) == 7 * (i + 1);
    HighBits(text, q, i, r);
    LowBits(text, i + 1, next, r + 1);
    JoinBits(text, 8 * q, 7 - r, r + 1);
    FromBitsConcat(low, high);
  }

  lemma JoinBits(text: seq<byte>, from: nat, n: nat, m: nat)
    ensures TextBits(text, from, n + m) == TextBits(text, from, n) + TextBits(text, from + n, m)
  {
  }

  lemma HighBits(text: seq<byte>, q: nat, i: nat, r: nat)
    requires i < |text| && r < 7 && 8 * q == 7 * i + r
    ensures FromBits(TextBits(text, 8 * q, 7 - r)) == ShiftRight(text[i] % 128, r)
  {
    var low := text[i] % 128;
    var bits := TextBits(text, 8 * q, 7 - r);
    forall j | 0 <= j < 7 - r
      ensures bits[j] == ToBits(ShiftRight(low, r), 7 - r)[j]
    {
      assert (7 * i + r + j) / 7 == i && (7 * i + r + j) % 7 == r + j;
      BitOfShifted(low, r, j);
      BitOfLowSeven(text[i], r + j);
    }
    assert bits == ToBits(ShiftRight(low, r), 7 - r);
    assert Pow2(7) == 128;
    ShiftedBound(low, r, 7);
    FromBitsToBitsSmall(ShiftRight(low, r), 7 - r);
  }

  lemma LowBits(text: seq<byte>, i: nat, next: byte, n: nat)
    requires n <= 7 && next == if i < |text| then text[i] else 0
    ensures FromBits(TextBits(text, 7 * i, n)) == next % Pow2(n)
  {
    var bits := TextBits(text, 7 * i, n);
    forall j | 0 <= j < n
      ensures bits[j] == ToBits(next, n)[j]
    {
      assert (7 * i + j) / 7 == i && (7 * i + j) % 7 == j;
      BitOfZero(j);
    }
    assert bits == ToBits(next, n);
    FromBitsToBits(next, n);
  }

  lemma ShiftRights(v: nat)
    ensures ShiftRight(v, 1) == v / 2 && ShiftRight(v, 2) == v / 4 && ShiftRight(v, 3) == v / 8
    ensures ShiftRight(v, 4) == v / 16 && ShiftRight(v, 5) == v / 32 && ShiftRight(v, 6) == v / 64
  {
    assert ShiftRight(v, 2) == ShiftRight(v / 2, 1);
    assert ShiftRight(v, 3) == ShiftRight(v / 4, 1);
    assert ShiftRight(v, 4) == ShiftRight(v / 8, 1);
    assert ShiftRight(v, 5) == ShiftRight(v / 16, 1);
    assert ShiftRight(v, 6) == ShiftRight(v / 32, 1);
  }

  lemma Powers()
    ensures Pow2(1) == 2 && Pow2(2) == 4 && Pow2(3) == 8 && Pow2(4) == 16
    ensures Pow2(5) == 32 && Pow2(6) == 64 && Pow2(7) == 128
  {
  }

  /** Octet `q` of a group of eight characters, of which it holds parts of the `q`-th and the next. */
  function GroupByte(q: nat, c: byte, next: byte): byte
    requires q < 7
  {
    match q
    case 0 => c % 128 + 128 * (next % 2)
    case 1 => c % 128 / 2 + 64 * (next % 4)
    case 2 => c % 128 / 4 + 32 * (next % 8)
    case 3 => c % 128 / 8 + 16 * (next % 16)
    case 4 => c % 128 / 16 + 8 * (next % 32)
    case 5 => c % 128 / 32 + 4 * (next % 64)
    case _ => c % 128 / 64 + 2 * (next % 128)
  }

  lemma GroupOctet(text: seq<byte>, q: nat)
    requires q < 7 <= |text|
    ensures Pack(text)[q] == GroupByte(q, text[q], if q + 1 < |text| then text[q + 1] else 0)
  {
    var next: byte := if q + 1 < |text| then text[q + 1] else 0;
    PackedOctet(text, q, q, q);
    ShiftRights(text[q] % 128);
    Powers();
    Shifts(next % Pow2(q + 1));
  }

  lemma BitsAfterGroup(text: seq<byte>, rest: seq<byte>, q: nat)
    requires |text| >= 7 && rest == if |text| > 8 then text[8..] else []
    ensures TextBits(text, 8 * (7 + q), 8) == TextBits(rest, 8 * q, 8)
  {
    forall j | 0 <= j < 8
      ensures TextBits(text, 8 * (7 + q), 8)[j] == TextBits(rest, 8 * q, 8)[j]
    {
      var k := 8 * q + j;
      assert (56 + k) / 7 == 8 + k / 7 && (56 + k) % 7 == k % 7;
    }
  }

  lemma PackAfterGroup(text: seq<byte>, rest: seq<byte>)
    requires |text| >= 7 && rest == if |text| > 8 then text[8..] else []
    ensures |Pack(text)| == 7 + |Pack(rest)| && Pack(text)[7..] == Pack(rest)
  {
    forall q | 0 <= q < |Pack(rest)|
      ensures PackedByte(text, 7 + q) == PackedByte(rest, q)
    {
      BitsAfterGroup(text, rest, q);
    }
  }

  /** Eight characters make seven octets; a last group of seven is filled up with a zero. */
  function Group(text: seq<byte>): (octets: seq<byte>)
    requires |text| >= 7
    ensures |octets| == 7
  {
    var last: byte := if |text| > 7 then text[7] else 0;
    [GroupByte(0, text[0], text[1]), GroupByte(1, text[1], text[2]), GroupByte(2, text[2], text[3]),
     GroupByte(3, text[3], text[4]), GroupByte(4, text[4], text[5]), GroupByte(5, text[5], text[6]),
     GroupByte(6, text[6], last)]
  }

  /** The format in numbers: the packed form is made group by group. */
  lemma PackGroup(text: seq<byte>)
    requires |text| >= 7
    ensures Pack(text) == if |text| > 8 then Group(text[..8]) + Pack(text[8..]) else Group(text)
  {
    PackAfterGroup(text, if |text| > 8 then text[8..] else []);
    assert Pack(text) == Pack(text)[..7] + Pack(text)[7..];
    forall q | 0 <= q < 7
      ensures Pack(text)[q] == Group(if |text| > 8 then text[..8] else text)[q]
    {
      GroupOctet(text, q);
    }
  }

  lemma UnpackOne(text: seq<byte>, i: nat)
    requires i < |text|
    ensures UnpackedSeptet(Pack(text), i) == text[i] % 128
  {
    var bits := DataBits(Pack(text), 7 * i, 7);
    forall j | 0 <= j < 7
      ensures bits[j] == ToBits(text[i], 7)[j]
    {
      PackBits(text, 7 * i + j);
      assert (7 * i + j) / 7 == i && (7 * i + j) % 7 == j;
    }
    assert bits == ToBits(text[i], 7);
    FromBitsToBits(text[i], 7);
    assert Pow2(7) == 128;
  }

  /** Unpacking undoes packing, up to the eighth bit that the format has no room for. */
  lemma UnpackPack(text: seq<byte>)
    ensures Unpack(Pack(text), |text|) == LowSeven(text)
  {
    forall i | 0 <= i < |text|
      ensures UnpackedSeptet(Pack(text), i) == text[i] % 128
    {
      UnpackOne(text, i);
    }
  }

  /** All bits of `xs`, `width` of them per element. */
  function Flatten(xs: seq<byte>, width: nat): (bits: seq<bit>)
  {
    if xs == [] then [] else ToBits(xs[0], width) + Flatten(xs[1..], width)
  }

  lemma {:induction false} FlattenSeven(text: seq<byte>)
    ensures Flatten(text, 7) == TextBits(text, 0, 7 * |text|)
  {
    if text != [] {
      FlattenSeven(text[1..]);
      var bits := Flatten(text, 7);
      forall k | 0 <= k < 7 * |text|
        ensures bits[k] == TextBit(text, k)
      {
        if k >= 7 {
          assert bits[k] == TextBit(text[1..], k - 7);
          assert (k - 7) / 7 == k / 7 - 1 && (k - 7) % 7 == k % 7;
        }
      }
    }
  }

  lemma {:induction false} FlattenEight(data: seq<byte>)
    ensures Flatten(data, 8) == DataBits(data, 0, 8 * |data|)
  {
    if data != [] {
      FlattenEight(data[1..]);
      var bits := Flatten(data, 8);
      forall k | 0 <= k < 8 * |data|
        ensures bits[k] == DataBit(data, k)
      {
        if k >= 8 {
          assert bits[k] == DataBit(data[1..], k - 8);
          assert (k - 8) / 8 == k / 8 - 1 && (k - 8) % 8 == k % 8;
        }
      }
    }
  }

  lemma {:induction false} FlattenSevenValue(septets: seq<byte>)
    requires forall i :: 0 <= i < |septets| ==> septets[i] < 128
    ensures FromBits(Flatten(septets, 7)) == LittleEndian(septets, 128)
  {
    if septets != [] {
      FlattenSevenValue(septets[1..]);
      FromBitsConcat(ToBits(septets[0], 7), Flatten(septets[1..], 7));
      assert Pow2(7) == 128;
      FromBitsToBitsSmall(septets[0], 7);
      Shifts(FromBits(Flatten(septets[1..], 7)));
    }
  }

  lemma {:induction false} FlattenEightValue(data: seq<byte>)
    ensures FromBits(Flatten(data, 8)) == LittleEndian(data, 256)
  {
    if data != [] {
      FlattenEightValue(data[1..]);
      FromBitsConcat(ToBits(data[0], 8), Flatten(data[1..], 8));
      assert Pow2(8) == 256;
      FromBitsToBitsSmall(data[0], 8);
      Shifts(FromBits(Flatten(data[1..], 8)));
    }
  }

  lemma Shifts(v: nat)
    ensures ShiftLeft(v, 1) == 2 * v && ShiftLeft(v, 2) == 4 * v && ShiftLeft(v, 3) == 8 * v
    ensures ShiftLeft(v, 4) == 16 * v && ShiftLeft(v, 5) == 32 * v && ShiftLeft(v, 6) == 64 * v
    ensures ShiftLeft(v, 7) == 128 * v && ShiftLeft(v, 8) == 256 * v
  {
    assert ShiftLeft(v, 7) == 2 * ShiftLeft(v, 6);
  }

  /** Packing is a change of base: the octets, read as a little-endian base-256 numeral, and
      the septets, read as a little-endian base-128 numeral, are the same number. */
  lemma PackIsChangeOfBase(text: seq<byte>)
    ensures LittleEndian(Pack(text), 256) == LittleEndian(LowSeven(text), 128)
  {
    var data, septets := Pack(text), LowSeven(text);
    var padding := 8 * |data| - 7 * |text|;
    var zeros := seq(padding, _ => 0);
    FlattenEight(data);
    FlattenSeven(septets);
    forall k | 0 <= k < 8 * |data|
      ensures Flatten(data, 8)[k] == (Flatten(septets, 7) + zeros)[k]
    {
      PackBits(text, k);
      if k < 7 * |text| {
        BitOfLowSeven(text[k / 7], k % 7);
      }
    }
    assert Flatten(data, 8) == Flatten(septets, 7) + zeros;
    FromBitsConcat(Flatten(septets, 7), zeros);
    FromBitsZeros(padding);
    ShiftLeftZero(|Flatten(septets, 7)|);
    FlattenEightValue(data);
    FlattenSevenValue(septets);
  }

  lemma {:induction false} OctetsFromValue(a: seq<byte>, b: seq<byte>)
    requires |a| == |b| && LittleEndian(a, 256) == LittleEndian(b, 256)
    ensures a == b
  {
    if a != [] {
      assert a[0] == b[0] && LittleEndian(a[1..], 256) == LittleEndian(b[1..], 256);
      OctetsFromValue(a[1..], b[1..]);
      assert a == [a[0]] + a[1..] && b == [b[0]] + b[1..];
    }
  }

  /** And it is the only octet string of its length with that value. */
  lemma PackIsTheOnlyChangeOfBase(text: seq<byte>, data: seq<byte>)
    requires |data| == PackedLength(|text|)
    ensures data == Pack(text) <==> LittleEndian(data, 256) == LittleEndian(LowSeven(text), 128)
  {
    PackIsChangeOfBase(text);
    if LittleEndian(data, 256) == LittleEndian(LowSeven(text), 128) {
      OctetsFromValue(data, Pack(text));
    }
  }

  lemma BitOfLowSeven(c: byte, j: nat)
    requires j < 7
    ensures Bit(c % 128, j) == Bit(c, j)
  {
    FromBitsToBits(c, 7);
    assert Pow2(7) == 128;
    BitOfFromBits(ToBits(c, 7), j);
  }

  lemma OctetFromItsBits(b: byte, text: seq<byte>, q: nat)
    requires forall j :: 0 <= j < 8 ==> Bit(b, j) == TextBit(text, 8 * q + j)
    ensures b == PackedByte(text, q)
  {
    assert TextBits(text, 8 * q, 8) == ToBits(b, 8);
    assert Pow2(8) == 256;
    FromBitsToBitsSmall(b, 8);
  }

  /** An octet string is determined by its bits. */
  lemma DataFromItsBits(data: seq<byte>, text: seq<byte>)
    requires |data| == PackedLength(|text|)
    requires forall k :: 0 <= k < 8 * |data| ==> DataBit(data, k) == TextBit(text, k)
    ensures data == Pack(text)
  {
    forall q | 0 <= q < |data|
      ensures data[q] == PackedByte(text, q)
    {
      forall j | 0 <= j < 8
        ensures Bit(data[q], j) == TextBit(text, 8 * q + j)
      {
        assert DataBit(data, 8 * q + j) == TextBit(text, 8 * q + j);
      }
      OctetFromItsBits(data[q], text, q);
    }
  }

  /** The first `done` stream bits are in place and every other bit is still clear. */
  ghost predicate Written(text: seq<byte>, data: seq<byte>, done: nat) {
    forall k :: 0 <= k < 8 * |data| ==> DataBit(data, k) == if k < done then TextBit(text, k) else 0
  }

  lemma NothingWritten(text: seq<byte>, data: seq<byte>)
    requires forall q :: 0 <= q < |data| ==> data[q] == 0
    ensures Written(text, data, 0)
  {
    forall k | 0 <= k < 8 * |data|
      ensures DataBit(data, k) == 0
    {
      BitOfZero(k % 8);
    }
  }

  /** One turn of the inner loop: stream bit `k` is or-ed into place and no other bit moves. */
  lemma OrKeepsWritten(text: seq<byte>, data: seq<byte>, k: nat)
    requires k < 7 * |text| && k / 8 < |data|
    requires Written(text, data, k)
    ensures var b := OrBit(data[k / 8], k % 8, TextBit(text, k));
            b < 256 && Written(text, data[k / 8 := b], k + 1)
  {
    var q := k / 8;
    assert Pow2(8) == 256;
    OrBitBound(data[q], k % 8, TextBit(text, k), 8);
    var after := data[q := OrBit(data[q], k % 8, TextBit(text, k))];
    forall k' | 0 <= k' < 8 * |data|
      ensures DataBit(after, k') == if k' < k + 1 then TextBit(text, k') else 0
    {
      assert DataBit(data, k') == if k' < k then TextBit(text, k') else 0;
      BitOfOrBit(data[q], k % 8, TextBit(text, k), k' % 8);
    }
  }

  /** The first `done` stream bits are in `pdu[at..end]`, and nothing else of `pdu` has changed from `was`. */
  ghost predicate Progress(text: seq<byte>, pdu: seq<byte>, at: nat, end: nat, done: nat, was: seq<byte>) {
    && at <= end <= |pdu| == |was|
    && (forall x :: 0 <= x < |pdu| && !(at <= x < end) ==> pdu[x] == was[x])
    && Written(text, pdu[at..end], done)
  }

  /** The statement in the inner loop: or stream bit `bitnum` into its place. */
  method OrStreamBit(text: seq<byte>, pdu: array<byte>, at: nat, end: nat,
                     i: nat, j: nat, bitnum: nat, ghost was: seq<byte>)
    requires i < |text| && j < 7 && bitnum == 7 * i + j && at <= end && bitnum / 8 < end - at
    requires Progress(text, pdu[..], at, end, bitnum, was)
    modifies pdu
    ensures Progress(text, pdu[..], at, end, bitnum + 1, was)
  {
    assert bitnum / 7 == i && bitnum % 7 == j;
    ghost var before := pdu[..];
    ghost var data := before[at..end];
    OrKeepsWritten(text, data, bitnum);
    pdu[at + bitnum / 8] := OrBit(pdu[at + bitnum / 8], bitnum % 8, Bit(text[i], j));
    assert pdu[..][at..end] == data[bitnum / 8 := pdu[at + bitnum / 8]];
  }

  /** The user-data loops: clear the octets, then or the stream in bit by bit. */
  method PackInto(text: seq<byte>, pdu: array<byte>, at: nat)
    requires at + PackedLength(|text|) <= pdu.Length
    modifies pdu
    ensures pdu[at..at + PackedLength(|text|)] == Pack(text)
    ensures SameOutside(pdu, at, at + PackedLength(|text|))
  {
    ghost var was := pdu[..];
    var end := at + PackedLength(|text|);
    Clear(pdu, at, end);
    NothingWritten(text, pdu[..][at..end]);
    var bitnum := 0;
    for i := 0 to |text|
      invariant bitnum == 7 * i && Progress(text, pdu[..], at, end, bitnum, was)
    {
      for j := 0 to 7
        invariant bitnum == 7 * i + j && Progress(text, pdu[..], at, end, bitnum, was)
      {
        OrStreamBit(text, pdu, at, end, i, j, bitnum, was);
        bitnum := bitnum + 1;
      }
    }
    ghost var now := pdu[..];
    DataFromItsBits(now[at..end], text);
    assert pdu[at..end] == now[at..end];
  }

  /** `memset(pdu + at, 0, end - at)`. */
  method Clear(pdu: array<byte>, at: nat, end: nat)
    requires at <= end <= pdu.Length
    modifies pdu
    ensures forall x :: 0 <= x < pdu.Length ==> pdu[x] == if at <= x < end then 0 else old(pdu[x])
  {
    for x := at to end
      invariant forall y :: 0 <= y < pdu.Length ==> pdu[y] == if at <= y < x then 0 else old(pdu[y])
    {
      pdu[x] := 0;
    }
  }
}
