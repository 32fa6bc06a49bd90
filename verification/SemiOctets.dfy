/** Swapped BCD semi-octets (section 9.1.2.3 of 3GPP TS 23.040), as `NumberToNibbles` writes them. */
module SemiOctets {
  import opened Bytes

  predicate IsDigit(c: byte) { 48 <= c <= 57 }

  predicate AllDigits(number: seq<byte>) {
    forall i :: 0 <= i < |number| ==> IsDigit(number[i])
  }

  /** Octets needed for `n` digits. */
  function OctetCount(n: nat): nat { (n + 1) / 2 }

  /** Octet `q`: the earlier digit in the low half; an odd tail is filled with 0xF. */
  function Octet(number: seq<byte>, q: nat): byte
    requires AllDigits(number) && q < OctetCount(|number|)
  {
    (number[2 * q] - 48) + 16 * (if 2 * q + 1 < |number| then number[2 * q + 1] - 48 else 15)
  }

  function Encode(number: seq<byte>): (octets: seq<byte>)
    requires AllDigits(number)
    ensures |octets| == OctetCount(|number|)
  {
    seq(OctetCount(|number|), q requires 0 <= q < OctetCount(|number|) => Octet(number, q))
  }

  /** The receiver's side: low half then high half of each octet, a half equal to 0xF being a filler. */
  function Decode(octets: seq<byte>): (number: seq<byte>)
    ensures |number| <= 2 * |octets|
  {
    if octets == [] then []
    else Half(octets[0] % 16) + Half(octets[0] / 16) + Decode(octets[1..])
  }

  function Half(h: nat): (digits: seq<byte>)
    requires h < 16
    ensures |digits| <= 1
  {
    if h == 15 then [] else [48 + h]
  }

  function DropTwo(number: seq<byte>): seq<byte> {
    if |number| <= 2 then [] else number[2..]
  }

  /** The first octet holds the first two digits; the rest encode the other digits. */
  lemma EncodeCons(number: seq<byte>)
    requires AllDigits(number) && number != []
    ensures AllDigits(DropTwo(number))
    ensures Encode(number) == [Octet(number, 0)] + Encode(DropTwo(number))
  {
    var octets, rest := Encode(number), DropTwo(number);
    forall q | 0 <= q < OctetCount(|rest|)
      ensures Encode(rest)[q] == octets[q + 1]
    {
      assert octets[q + 1] == Octet(number, q + 1) && Encode(rest)[q] == Octet(rest, q);
    }
  }

  lemma {:induction false} DecodeEncode(number: seq<byte>)
    requires AllDigits(number)
    ensures Decode(Encode(number)) == number
    decreases |number|
  {
    if number != [] {
      var rest := DropTwo(number);
      EncodeCons(number);
      DecodeEncode(rest);
      var octet := Octet(number, 0);
      assert Encode(number)[0] == octet && Encode(number)[1..] == Encode(rest);
      assert octet % 16 == number[0] - 48 && Half(octet % 16) == [number[0]];
      if |number| == 1 {
        assert octet / 16 == 15;
        assert number == [number[0]];
      } else {
        assert Half(octet / 16) == [number[1]];
        assert number == [number[0]] + [number[1]] + rest;
      }
    }
  }

  /** Appending a digit either opens a new octet or fills the high half of the last one. */
  lemma EncodeAppend(number: seq<byte>, c: byte)
    requires AllDigits(number) && IsDigit(c)
    ensures var n := |number|;
            Encode(number + [c]) ==
            if n % 2 == 0 then Encode(number) + [240 + (c - 48)]
            else Encode(number)[n / 2 := Encode(number)[n / 2] % 16 + 16 * (c - 48)]
  {
    var n := |number|;
    var longer := number + [c];
    forall q | 0 <= q < OctetCount(n + 1)
      ensures Encode(longer)[q] ==
              if q < n / 2 then Encode(number)[q]
              else if n % 2 == 0 then 240 + (c - 48)
              else Encode(number)[n / 2] % 16 + 16 * (c - 48)
    {
      assert Encode(longer)[q] == Octet(longer, q);
    }
  }

  /** The first `i` characters were digits and are encoded at `at`; nothing but their octets changed from `was`. */
  ghost predicate Progress(data: seq<byte>, i: nat, dst: seq<byte>, at: nat, was: seq<byte>) {
    i <= |data| && AllDigits(data[..i]) && Holds(dst, at, at + OctetCount(i), Encode(data[..i]), was)
  }

  /** `NumberToNibbles(data, strlen(data), dst + at)`. On return the octets `[at, top)` were written and no others. */
  method NumberToNibbles(data: seq<byte>, dst: array<byte>, at: nat) returns (ret: int, ghost top: nat)
    requires at + OctetCount(|data|) <= dst.Length
    modifies dst
    ensures ret == if AllDigits(data) then OctetCount(|data|) else -1
    ensures AllDigits(data) ==> dst[at..at + ret] == Encode(data) && top == at + ret
    ensures at <= top <= at + OctetCount(|data|) && SameOutside(dst, at, top)
  {
    ghost var was := dst[..];
    for i := 0 to |data|
      invariant Progress(data, i, dst[..], at, was)
    {
      var c := data[i];
      if c < 48 || c > 57 {
        HoldsOutside(dst[..], at, at + OctetCount(i), Encode(data[..i]), was);
        return -1, at + OctetCount(i);
      }
      PutDigit(data, dst, at, i, was);
    }
    assert data[..|data|] == data;
    HoldsOutside(dst[..], at, at + OctetCount(|data|), Encode(data), was);
    ret := OctetCount(|data|);
    top := at + ret;
  }

  /** The rest of the loop body, for a digit `data[i]`: it becomes half `i` of the octets at `at`. */
  method PutDigit(data: seq<byte>, dst: array<byte>, at: nat, i: nat, ghost was: seq<byte>)
    requires i < |data| && IsDigit(data[i]) && at + OctetCount(i + 1) <= dst.Length
    requires Progress(data, i, dst[..], at, was)
    modifies dst
    ensures Progress(data, i + 1, dst[..], at, was)
  {
    var d := data[i] - 48;
    ghost var before := dst[..];
    ProgressStep(data, i, before, at, was);
    if i % 2 != 0 {
      dst[at + i / 2] := dst[at + i / 2] % 16 + 16 * d;
      assert dst[..] == before[at + i / 2 := before[at + i / 2] % 16 + 16 * d];
    } else {
      dst[at + i / 2] := 240 + d;
      assert dst[..] == before[at + i / 2 := 240 + d];
    }
  }

  lemma ProgressStep(data: seq<byte>, i: nat, dst: seq<byte>, at: nat, was: seq<byte>)
    requires i < |data| && IsDigit(data[i]) && at + OctetCount(i + 1) <= |dst|
    requires Progress(data, i, dst, at, was)
    ensures var octet := if i % 2 != 0 then dst[at + i / 2] % 16 + 16 * (data[i] - 48) else 240 + (data[i] - 48);
            Progress(data, i + 1, dst[at + i / 2 := octet], at, was)
  {
    assert data[..i + 1] == data[..i] + [data[i]];
    HoldsWiden(dst, at, at + OctetCount(i), at + OctetCount(i + 1), Encode(data[..i]), was);
    DigitPlaced(data[..i], data[i], dst, at, at + OctetCount(i + 1), was);
  }

  lemma DigitPlaced(number: seq<byte>, c: byte, dst: seq<byte>, at: nat, end: nat, was: seq<byte>)
    requires AllDigits(number) && IsDigit(c) && at + OctetCount(|number| + 1) <= end
    requires Holds(dst, at, end, Encode(number), was)
    ensures var x := at + |number| / 2;
            var octet := if |number| % 2 != 0 then dst[x] % 16 + 16 * (c - 48) else 240 + (c - 48);
            Holds(dst[x := octet], at, end, Encode(number + [c]), was)
  {
    EncodeAppend(number, c);
    if |number| % 2 != 0 {
      WriteAgain(dst, at, end, Encode(number), was, |number| / 2, dst[at + |number| / 2] % 16 + 16 * (c - 48));
    } else {
      WriteNext(dst, at, end, Encode(number), was, 240 + (c - 48));
    }
  }
}
