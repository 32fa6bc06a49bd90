/** SMS-SUBMIT encoding (section 9.2.2.2 of 3GPP TS 23.040): `AsciiToPDU`, and the decoder it answers to. */
module SmsPdu {
  import opened Bytes
  import SemiOctets
  import Septets

  const PDU_NUM_INTERNATIONAL: byte := 0x91
  const PDU_LEN_MIN := 9
  const PDU_NUM_LEN_MAX := 6
  const PDU_FLAGS_MTI_SMS_SUBMIT: byte := 1
  const PDU_DCS_ASCII7: byte := 0
  const PDU_ASCII7_MAX_DATA_LEN := 160
  const PLUS: byte := 43

  /** A C string is its characters before the terminator; `None` is a null pointer. */
  type CString = seq<byte>

  function DropPlus(s: CString): CString {
    if s != [] && s[0] == PLUS then s[1..] else s
  }

  function Number(s: Option<CString>): Option<CString> {
    match s case None => None case Some(n) => Some(DropPlus(n))
  }

  predicate IsNumber(digits: seq<byte>) {
    SemiOctets.AllDigits(digits) && SemiOctets.OctetCount(|digits|) <= PDU_NUM_LEN_MAX
  }

  /** What the format can carry: at most twelve digits per address and 160 characters. */
  ghost predicate Encodable(sca: Option<seq<byte>>, dest: seq<byte>, text: seq<byte>) {
    && (sca.Some? ==> IsNumber(sca.value))
    && IsNumber(dest)
    && |text| <= PDU_ASCII7_MAX_DATA_LEN
  }

  // ---------------------------------------------------------------- layout

  function ScaLength(sca: Option<seq<byte>>): nat {
    if sca.None? then 1 else 2 + SemiOctets.OctetCount(|sca.value|)
  }

  /** The closed form of the result. */
  function PduLength(sca: Option<seq<byte>>, dest: seq<byte>, text: seq<byte>): nat {
    ScaLength(sca) + 7 + SemiOctets.OctetCount(|dest|) + Septets.PackedLength(|text|)
  }

  function ScaBytes(sca: Option<seq<byte>>): (b: seq<byte>)
    requires sca.Some? ==> IsNumber(sca.value)
    ensures |b| == ScaLength(sca)
  {
    if sca.None? then [0]
    else [1 + SemiOctets.OctetCount(|sca.value|), PDU_NUM_INTERNATIONAL] + SemiOctets.Encode(sca.value)
  }

  function DestBytes(dest: seq<byte>): (b: seq<byte>)
    requires IsNumber(dest)
    ensures |b| == 2 + SemiOctets.OctetCount(|dest|)
  {
    [|dest|, PDU_NUM_INTERNATIONAL] + SemiOctets.Encode(dest)
  }

  function TpduBytes(dest: seq<byte>, text: seq<byte>): (b: seq<byte>)
    requires IsNumber(dest) && |text| <= PDU_ASCII7_MAX_DATA_LEN
    ensures |b| == 7 + SemiOctets.OctetCount(|dest|) + Septets.PackedLength(|text|)
  {
    [PDU_FLAGS_MTI_SMS_SUBMIT, 0] + DestBytes(dest) + [0, PDU_DCS_ASCII7, |text|] + Septets.Pack(text)
  }

  function PduBytes(sca: Option<seq<byte>>, dest: seq<byte>, text: seq<byte>): (b: seq<byte>)
    requires Encodable(sca, dest, text)
    ensures |b| == PduLength(sca, dest, text)
  {
    ScaBytes(sca) + TpduBytes(dest, text)
  }

  // ---------------------------------------------------------------- the receiver

  datatype Submit = Submit(sca: Option<seq<byte>>, dest: seq<byte>, text: seq<byte>, used: nat)

  /** The service centre, or `None` for the default one, and how many octets it took. */
  function DecodeSca(b: seq<byte>): Option<(Option<seq<byte>>, nat)> {
    if |b| == 0 || |b| <= b[0] then None
    else if b[0] == 0 then Some((None, 1))
    else if b[1] != 0x91 then None
    else
      var front := 1 + (b[0] as int);
      Some((Some(SemiOctets.Decode(b[2..front])), front))
  }

  /** Reads one PDU from the front of `b`; anything may follow it. */
  function Decode(b: seq<byte>): Option<Submit> {
    match DecodeSca(b)
    case None => None
    case Some((sca, used)) => if used <= |b| then DecodeTpdu(sca, used, b[used..]) else None
  }

  function DecodeTpdu(sca: Option<seq<byte>>, used: nat, t: seq<byte>): Option<Submit> {
    if |t| < 7 || t[0] != 0x01 || t[3] != 0x91 then None
    else
      var octets := SemiOctets.OctetCount(t[2]);
      if |t| < 7 + octets || t[4 + octets] != 0x00 || t[5 + octets] != 0x00 then None
      else
        var dest := SemiOctets.Decode(t[4..4 + octets]);
        var udl := t[6 + octets];
        var end := 7 + octets + Septets.PackedLength(udl);
        if |dest| != t[2] || |t| < end then None
        else Some(Submit(sca, dest, Septets.Unpack(t[7 + octets..end], udl), used + end))
  }

  lemma DecodeTpduBytes(sca: Option<seq<byte>>, used: nat, dest: seq<byte>, text: seq<byte>, rest: seq<byte>)
    requires IsNumber(dest) && |text| <= PDU_ASCII7_MAX_DATA_LEN
    ensures DecodeTpdu(sca, used, TpduBytes(dest, text) + rest)
         == Some(Submit(sca, dest, Septets.LowSeven(text), used + |TpduBytes(dest, text)|))
  {
    var t := TpduBytes(dest, text) + rest;
    var octets := SemiOctets.OctetCount(|dest|);
    var end := 7 + octets + Septets.PackedLength(|text|);
    assert t[2] == |dest|;
    assert t[4..4 + octets] == SemiOctets.Encode(dest);
    assert t[7 + octets..end] == Septets.Pack(text);
    SemiOctets.DecodeEncode(dest);
    Septets.UnpackPack(text);
  }

  lemma DecodeScaBytes(sca: Option<seq<byte>>, t: seq<byte>)
    requires sca.Some? ==> IsNumber(sca.value)
    ensures DecodeSca(ScaBytes(sca) + t) == Some((sca, ScaLength(sca)))
    ensures (ScaBytes(sca) + t)[ScaLength(sca)..] == t
  {
    if sca.Some? {
      assert (ScaBytes(sca) + t)[2..ScaLength(sca)] == SemiOctets.Encode(sca.value);
      SemiOctets.DecodeEncode(sca.value);
    }
  }

  lemma DecodeInParts(b: seq<byte>, sca: Option<seq<byte>>, used: nat, t: seq<byte>)
    requires DecodeSca(b) == Some((sca, used)) && used <= |b| && b[used..] == t
    ensures Decode(b) == DecodeTpdu(sca, used, t)
  {
  }

  lemma Regroup(a: seq<byte>, b: seq<byte>, c: seq<byte>)
    ensures a + b + c == a + (b + c)
  {
  }

  /** Whole-PDU round trip: the decoder recovers the service centre (or its absence), the
      destination and every septet, and stops exactly where the PDU ends. */
  lemma RoundTrip(sca: Option<seq<byte>>, dest: seq<byte>, text: seq<byte>, rest: seq<byte>)
    requires Encodable(sca, dest, text)
    ensures Decode(PduBytes(sca, dest, text) + rest)
         == Some(Submit(sca, dest, Septets.LowSeven(text), PduLength(sca, dest, text)))
  {
    var t := TpduBytes(dest, text) + rest;
    Regroup(ScaBytes(sca), TpduBytes(dest, text), rest);
    DecodeScaBytes(sca, t);
    DecodeInParts(ScaBytes(sca) + t, sca, ScaLength(sca), t);
    DecodeTpduBytes(sca, ScaLength(sca), dest, text, rest);
  }

  /** No two different messages share a PDU, even inside longer byte strings. */
  lemma PduDeterminesMessage(sca: Option<seq<byte>>, dest: seq<byte>, text: seq<byte>, rest: seq<byte>,
                             sca': Option<seq<byte>>, dest': seq<byte>, text': seq<byte>, rest': seq<byte>)
    requires Encodable(sca, dest, text) && Encodable(sca', dest', text')
    requires PduBytes(sca, dest, text) + rest == PduBytes(sca', dest', text') + rest'
    ensures sca == sca' && dest == dest' && Septets.LowSeven(text) == Septets.LowSeven(text') && rest == rest'
  {
    RoundTrip(sca, dest, text, rest);
    RoundTrip(sca', dest', text', rest');
    var n := PduLength(sca, dest, text);
    assert rest == (PduBytes(sca, dest, text) + rest)[n..];
    assert rest' == (PduBytes(sca', dest', text') + rest')[n..];
  }

  // ---------------------------------------------------------------- the encoder

  /** When the encoder returns a length instead of -1. */
  ghost predicate Accepts(smsc: Option<CString>, dest: Option<CString>, text: Option<CString>,
                          hasBuffer: bool, buflen: nat)
  {
    && dest.Some? && text.Some? && hasBuffer
    && Encodable(Number(smsc), DropPlus(dest.value), text.value)
    && PDU_LEN_MIN <= buflen
    && PduLength(Number(smsc), DropPlus(dest.value), text.value) <= buflen
  }

  /** `s` is the number `digits`: at most twelve decimal digits, with or without a '+' before them. */
  ghost predicate Spells(s: CString, digits: seq<byte>) {
    && (s == digits || s == [43] + digits)
    && |digits| <= 12 && forall i :: 0 <= i < |digits| ==> 48 <= digits[i] <= 57
  }

  lemma SpelledNumber(s: CString, digits: seq<byte>)
    ensures Spells(s, digits) <==> DropPlus(s) == digits && IsNumber(digits)
  {
    if s != [] && s[0] == 43 {
      assert s == [43] + s[1..];
    }
  }

  /** Octets of a number, of a service centre and of a whole PDU, from the numbers of digits and characters. */
  function OctetsFor(sca: Option<seq<byte>>, dest: seq<byte>, text: seq<byte>): nat {
    (if sca.None? then 1 else 2 + (|sca.value| + 1) / 2) + 7 + (|dest| + 1) / 2 + (7 * |text| + 7) / 8
  }

  /** The smsc argument is a null pointer, or spells the service centre. */
  ghost predicate SpellsSca(smsc: Option<CString>, sca: Option<seq<byte>>) {
    if smsc.None? then sca.None? else sca.Some? && Spells(smsc.value, sca.value)
  }

  /** What the encoder accepts, said of the arguments as they are given. */
  lemma AcceptedExactly(smsc: Option<CString>, dest: Option<CString>, text: Option<CString>,
                        hasBuffer: bool, buflen: nat)
    ensures Accepts(smsc, dest, text, hasBuffer, buflen) <==>
            && dest.Some? && text.Some? && hasBuffer && 9 <= buflen && |text.value| <= 160
            && exists sca, number :: SpellsSca(smsc, sca) && Spells(dest.value, number)
                                     && OctetsFor(sca, number, text.value) <= buflen
  {
    if dest.Some? && text.Some? {
      var sca, number := Number(smsc), DropPlus(dest.value);
      SpelledNumber(dest.value, number);
      if smsc.Some? {
        SpelledNumber(smsc.value, sca.value);
      }
      if Accepts(smsc, dest, text, hasBuffer, buflen) {
        assert SpellsSca(smsc, sca) && Spells(dest.value, number);
      }
      forall sca', number' | SpellsSca(smsc, sca') && Spells(dest.value, number')
        ensures sca' == sca && number' == number
      {
        SpelledNumber(dest.value, number');
        if smsc.Some? {
          SpelledNumber(smsc.value, sca'.value);
        }
      }
    }
  }

  /** What it then writes, octet by octet; a '+' before a number makes no difference. */
  lemma WrittenExactly(smsc: Option<CString>, sca: Option<seq<byte>>, dest: CString, number: seq<byte>, text: CString)
    requires SpellsSca(smsc, sca) && Spells(dest, number) && |text| <= 160
    ensures Number(smsc) == sca && DropPlus(dest) == number && Encodable(sca, number, text)
    ensures PduLength(sca, number, text) == OctetsFor(sca, number, text)
    ensures PduBytes(sca, number, text)
         == (if sca.None? then [0x00] else [1 + (|sca.value| + 1) / 2, 0x91] + SemiOctets.Encode(sca.value))
            + [0x01, 0x00, |number|, 0x91] + SemiOctets.Encode(number)
            + [0x00, 0x00, |text|] + Septets.Pack(text)
  {
    SpelledNumber(dest, number);
    if smsc.Some? {
      SpelledNumber(smsc.value, sca.value);
    }
  }

  /** What keeps the writes that no length check precedes inside the buffer: two octets after the service
      centre, the digit count, and two octets after the destination. */
  ghost predicate UncheckedWritesFit(smsc: Option<CString>, dest: Option<CString>, text: Option<CString>, buflen: nat) {
    dest.Some? && text.Some? && PDU_LEN_MIN <= buflen && (smsc.Some? ==> IsNumber(DropPlus(smsc.value))) ==>
      UncheckedTpduWritesFit(DropPlus(dest.value), ScaLength(Number(smsc)), buflen)
  }

  ghost predicate UncheckedTpduWritesFit(number: CString, at: nat, buflen: nat) {
    var octets := SemiOctets.OctetCount(|number|);
    && at + 2 <= buflen
    && (octets <= PDU_NUM_LEN_MAX ==>
          && at + 3 <= buflen
          && (at + 4 + octets <= buflen && SemiOctets.AllDigits(number) ==> at + 6 + octets <= buflen))
  }

  /** Twenty octets are enough for every input ... */
  lemma TwentyOctetsSuffice(smsc: Option<CString>, dest: Option<CString>, text: Option<CString>, buflen: nat)
    requires buflen >= 20
    ensures UncheckedWritesFit(smsc, dest, text, buflen)
  {
  }

  function OverrunningSmsc(buflen: nat): CString
    requires PDU_LEN_MIN <= buflen < 20
  {
    seq(if buflen <= 12 then 2 * (buflen - 6) else 12, _ => 48)
  }

  function OverrunningDest(buflen: nat): CString
    requires PDU_LEN_MIN <= buflen < 20
  {
    seq(if buflen <= 12 then 0 else if buflen == 19 then 12 else 2 * (buflen - 12), _ => 48)
  }

  lemma OverrunningInput(buflen: nat)
    requires PDU_LEN_MIN <= buflen < 20
    ensures !UncheckedWritesFit(Some(OverrunningSmsc(buflen)), Some(OverrunningDest(buflen)), Some([]), buflen)
  {
    assert SemiOctets.AllDigits(OverrunningSmsc(buflen)) && SemiOctets.AllDigits(OverrunningDest(buflen));
  }

  /** ... and no smaller buffer that passes the entry guard is: with such a `buflen` there is a call of the encoder
      that changes an octet behind the buffer, which is seen in memory that holds 0xFF there. */
  method FewerThanTwentyDoNot(pdu: array<byte>, buflen: nat) returns (at: nat)
    requires PDU_LEN_MIN <= buflen < 20 && buflen + 2 <= pdu.Length
    requires forall x :: buflen <= x < pdu.Length ==> pdu[x] == 0xff
    modifies pdu
    ensures buflen <= at < pdu.Length && pdu[at] != old(pdu[at])
  {
    OverrunningInput(buflen);
    ghost var top;
    var ret;
    ret, top := AsciiToPDU(Some(OverrunningSmsc(buflen)), Some(OverrunningDest(buflen)), Some([]), pdu, buflen);
    assert pdu[top - 1] != 0xff;
    at := if pdu[buflen] != 0xff then buflen else buflen + 1;
  }

  /** `AsciiToPDU(smsc, dest, text, pdu, buflen)`. `top` is one past the highest octet written. Where a write falls
      behind the buffer, the array stands for the memory there: the encoder never gets further than two octets. */
  method AsciiToPDU(smsc: Option<CString>, dest: Option<CString>, text: Option<CString>,
                    pdu: array?<byte>, buflen: nat)
    returns (ret: int, ghost top: nat)
    requires pdu != null ==> buflen <= pdu.Length
    requires pdu != null ==> UncheckedWritesFit(smsc, dest, text, buflen) || buflen + 2 <= pdu.Length
    modifies pdu
    ensures ret == if Accepts(smsc, dest, text, pdu != null, buflen)
                   then PduLength(Number(smsc), DropPlus(dest.value), text.value) else -1
    ensures ret >= 0 ==> pdu[..ret] == PduBytes(Number(smsc), DropPlus(dest.value), text.value) && top == ret
    ensures pdu != null ==> (top <= buflen <==> UncheckedWritesFit(smsc, dest, text, buflen))
    ensures pdu != null ==> top <= buflen + 2 && top <= pdu.Length && SameFrom(pdu, top)
    ensures pdu != null && top > buflen ==> pdu[top - 1] <= 12
  {
    if dest.None? || text.None? || pdu == null || buflen < PDU_LEN_MIN {
      return -1, 0;
    }
    var at;
    at, top := PutServiceCentre(smsc, pdu, buflen);
    if at < 0 {
      return -1, top;
    }
    ret, top := PutTpdu(DropPlus(dest.value), text.value, pdu, at, buflen);
  }

  /** The TPDU at `at`, after the service centre; returns the offset after it, or -1. */
  method PutTpdu(number: CString, text: CString, pdu: array<byte>, at: nat, buflen: nat)
    returns (ret: int, ghost top: nat)
    requires at < buflen <= pdu.Length
    requires UncheckedTpduWritesFit(number, at, buflen) || buflen + 2 <= pdu.Length
    modifies pdu
    ensures var total := at + 7 + SemiOctets.OctetCount(|number|) + Septets.PackedLength(|text|);
            ret == if IsNumber(number) && |text| <= PDU_ASCII7_MAX_DATA_LEN && total <= buflen then total else -1
    ensures ret >= 0 ==> pdu[..ret] == old(pdu[..at]) + TpduBytes(number, text) && top == ret
    ensures top <= buflen <==> UncheckedTpduWritesFit(number, at, buflen)
    ensures at < top <= buflen + 2 && top <= pdu.Length && SameFrom(pdu, top)
    ensures top > buflen ==> pdu[top - 1] <= 12
  {
    PutTwo(pdu, at, PDU_FLAGS_MTI_SMS_SUBMIT, 0);
    var len;
    len, top := PutDestination(number, pdu, at + 2, buflen);
    if len < 0 {
      return -1, top;
    }
    PutTwo(pdu, len, 0, PDU_DCS_ASCII7);
    top := len + 2;
    ret := PutUserData(text, pdu, len + 2, buflen);
    if ret >= 0 {
      top := ret;
      JoinBlocks(old(pdu[..at]), number, text);
    }
  }

  method PutTwo(pdu: array<byte>, at: nat, a: byte, b: byte)
    requires at + 2 <= pdu.Length
    modifies pdu
    ensures pdu[..at + 2] == old(pdu[..at]) + [a, b]
    ensures pdu[at] == a && pdu[at + 1] == b && SameFrom(pdu, at + 2)
  {
    pdu[at] := a;
    pdu[at + 1] := b;
  }

  lemma JoinBlocks(front: seq<byte>, dest: seq<byte>, text: seq<byte>)
    requires IsNumber(dest) && |text| <= PDU_ASCII7_MAX_DATA_LEN
    ensures front + TpduBytes(dest, text)
         == front + [PDU_FLAGS_MTI_SMS_SUBMIT, 0] + DestBytes(dest) + [0, PDU_DCS_ASCII7]
            + ([|text|] + Septets.Pack(text))
  {
  }

  lemma JoinAt(b: seq<byte>, front: seq<byte>, head: seq<byte>, block: seq<byte>)
    requires |front| + |head| + |block| <= |b|
    requires forall x :: 0 <= x < |front| ==> b[x] == front[x]
    requires forall x :: 0 <= x < |head| ==> b[|front| + x] == head[x]
    requires b[|front| + |head|..|front| + |head| + |block|] == block
    ensures b[..|front| + |head| + |block|] == front + (head + block)
  {
    var end := |front| + |head| + |block|;
    assert b[..end] == b[..|front| + |head|] + b[|front| + |head|..end];
    assert b[..|front| + |head|] == front + head;
  }

  /** The destination block at `len`; returns the offset after it, or -1. */
  method PutDestination(number: CString, pdu: array<byte>, len: nat, buflen: nat) returns (ret: int, ghost top: nat)
    requires len <= pdu.Length && buflen <= pdu.Length
    requires SemiOctets.OctetCount(|number|) <= PDU_NUM_LEN_MAX ==> len < pdu.Length
    modifies pdu
    ensures ret == if IsNumber(number) && len + 2 + SemiOctets.OctetCount(|number|) <= buflen
                   then len + 2 + SemiOctets.OctetCount(|number|) else -1
    ensures ret >= 0 ==> pdu[..ret] == old(pdu[..len]) + DestBytes(number) && top == ret
    ensures forall x :: 0 <= x < len ==> pdu[x] == old(pdu[x])
    ensures len <= top <= pdu.Length && SameFrom(pdu, top)
    ensures var octets := SemiOctets.OctetCount(|number|);
            if octets > PDU_NUM_LEN_MAX then top == len
            else if buflen < len + 2 + octets then top == len + 1 && pdu[len] == |number|
            else len + 1 < top <= buflen
  {
    var numbytes := SemiOctets.OctetCount(|number|);
    if numbytes > PDU_NUM_LEN_MAX {
      return -1, len;
    }
    pdu[len] := |number|;
    if buflen < len + 2 + numbytes {
      return -1, len + 1;
    }
    pdu[len + 1] := PDU_NUM_INTERNATIONAL;
    ret, top := SemiOctets.NumberToNibbles(number, pdu, len + 2);
    if ret < 0 {
      return;
    }
    ret := len + 2 + numbytes;
    JoinAt(pdu[..], old(pdu[..len]), [|number|, PDU_NUM_INTERNATIONAL], SemiOctets.Encode(number));
  }

  /** The user-data block at `len`; returns the offset after it, or -1. */
  method PutUserData(text: CString, pdu: array<byte>, len: nat, buflen: nat) returns (ret: int)
    requires buflen <= pdu.Length && len <= pdu.Length
    modifies pdu
    ensures ret == if |text| <= PDU_ASCII7_MAX_DATA_LEN && len + 1 + Septets.PackedLength(|text|) <= buflen
                   then len + 1 + Septets.PackedLength(|text|) else -1
    ensures ret >= 0 ==> pdu[..ret] == old(pdu[..len]) + ([|text|] + Septets.Pack(text))
    ensures ret >= 0 ==> SameFrom(pdu, ret)
    ensures ret < 0 ==> SameFrom(pdu, 0)
  {
    var textBytes := Septets.PackedLength(|text|);
    if len + textBytes + 1 > buflen || |text| > PDU_ASCII7_MAX_DATA_LEN {
      return -1;
    }
    pdu[len] := |text|;
    Septets.PackInto(text, pdu, len + 1);
    ret := len + 1 + textBytes;
    JoinAt(pdu[..], old(pdu[..len]), [|text|], Septets.Pack(text));
  }

  /** The service-centre block; returns the number of octets written, or -1. */
  method PutServiceCentre(smsc: Option<CString>, pdu: array<byte>, buflen: nat) returns (len: int, ghost top: nat)
    requires PDU_LEN_MIN <= buflen <= pdu.Length
    modifies pdu
    ensures len == if smsc.Some? ==> IsNumber(DropPlus(smsc.value)) then ScaLength(Number(smsc)) else -1
    ensures len >= 0 ==> pdu[..len] == ScaBytes(Number(smsc)) && top == len
    ensures top < buflen && SameFrom(pdu, top)
  {
    if smsc.None? {
      pdu[0] := 0;
      return 1, 1;
    }
    var number := DropPlus(smsc.value);
    var numbytes := SemiOctets.OctetCount(|number|);
    if numbytes > PDU_NUM_LEN_MAX {
      return -1, 0;
    }
    pdu[0] := 1 + numbytes;
    top := 1;
    len := 2 + numbytes;
    if buflen < len {
      return -1, top;
    }
    pdu[1] := PDU_NUM_INTERNATIONAL;
    var ret;
    ret, top := SemiOctets.NumberToNibbles(number, pdu, 2);
    if ret < 0 {
      return ret, top;
    }
    assert pdu[..len] == ScaBytes(Number(smsc));
  }

  // ---------------------------------------------------------------- the shipped message

  /** "Hello fr", "om Kaspe" and "rskyOS!". */
  function Greeting(): CString {
    [72, 101, 108, 108, 111, 32, 102, 114] +
    ([111, 109, 32, 75, 97, 115, 112, 101] +
     [114, 115, 107, 121, 79, 83, 33])
  }

  lemma GreetingBegins()
    ensures Septets.Group([72, 101, 108, 108, 111, 32, 102, 114]) == [0xc8, 0x32, 0x9b, 0xfd, 0x06, 0x99, 0xe5]
  {
  }

  lemma GreetingContinues()
    ensures Septets.Group([111, 109, 32, 75, 97, 115, 112, 101]) == [0xef, 0x36, 0x68, 0x19, 0x9e, 0xc3, 0xcb]
  {
  }

  lemma GreetingEnds()
    ensures Septets.Group([114, 115, 107, 121, 79, 83, 33]) == [0xf2, 0xf9, 0x3a, 0xff, 0x9c, 0x86, 0x00]
  {
  }

  lemma PackedGreeting()
    ensures Septets.Pack(Greeting())
         == [0xc8, 0x32, 0x9b, 0xfd, 0x06, 0x99, 0xe5] +
            ([0xef, 0x36, 0x68, 0x19, 0x9e, 0xc3, 0xcb] +
             [0xf2, 0xf9, 0x3a, 0xff, 0x9c, 0x86, 0x00])
  {
    var third: CString := [114, 115, 107, 121, 79, 83, 33];
    var second := [111, 109, 32, 75, 97, 115, 112, 101] + third;
    assert Greeting()[8..] == second && second[8..] == third;
    assert Greeting()[..8] == [72, 101, 108, 108, 111, 32, 102, 114];
    assert second[..8] == [111, 109, 32, 75, 97, 115, 112, 101];
    Septets.PackGroup(Greeting());
    Septets.PackGroup(second);
    Septets.PackGroup(third);
    GreetingBegins();
    GreetingContinues();
    GreetingEnds();
  }

  lemma EncodedNumber()
    ensures var number := [55, 57, 48, 48, 48, 48, 48, 48, 48, 48, 48];
            Spells([43] + number, number) && SemiOctets.Encode(number) == [0x97, 0x00, 0x00, 0x00, 0x00, 0xf0]
  {
  }

  /** For "+79000000000" and its greeting the program sends the PDU that its documented output shows. */
  lemma ShippedMessage()
    ensures var number := [55, 57, 48, 48, 48, 48, 48, 48, 48, 48, 48];
            && Spells([43] + number, number) && Encodable(None, number, Greeting())
            && PduBytes(None, number, Greeting())
               == [0x00, 0x01, 0x00, 0x0b, 0x91] +
                  [0x97, 0x00, 0x00, 0x00, 0x00, 0xf0] +
                  [0x00, 0x00, 0x17] +
                  ([0xc8, 0x32, 0x9b, 0xfd, 0x06, 0x99, 0xe5] +
                   ([0xef, 0x36, 0x68, 0x19, 0x9e, 0xc3, 0xcb] +
                    [0xf2, 0xf9, 0x3a, 0xff, 0x9c, 0x86, 0x00]))
  {
    var number: CString := [55, 57, 48, 48, 48, 48, 48, 48, 48, 48, 48];
    EncodedNumber();
    PackedGreeting();
    WrittenExactly(None, None, [43] + number, number, Greeting());
  }
}
