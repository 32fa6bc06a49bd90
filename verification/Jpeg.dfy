/** The JPEG length finder `GetJpegSize` and its user `SaveMJPEG`, measured against the marker
    syntax of sections B.1.1.2 to B.1.1.5 of ITU-T T.81. */
module Jpeg {
  import opened Bytes

  const PADDING: byte := 0xff
  const STUFFING: byte := 0x00
  const SOI: byte := 0xd8
  const EOI: byte := 0xd9
  const TEM: byte := 0x01
  const RST0: byte := 0xd0
  const RST7: byte := 0xd7
  const SOS: byte := 0xda

  predicate IsRestart(c: byte) { RST0 <= c <= RST7 }

  /** Markers without a length field. */
  predicate IsStandalone(c: byte) { c == SOI || c == TEM || IsRestart(c) }

  /** What may follow 0xFF inside a scan. */
  predicate StaysInScan(c: byte) { c == STUFFING || IsRestart(c) }

  // ---------------------------------------------------------------- the walk

  /** Where the inner loop started at `i` leaves the index. */
  function ScanEnd(b: seq<byte>, i: nat): (end: nat)
    requires i <= |b|
    ensures i <= end <= |b|
    decreases |b| - i
  {
    if i + 1 >= |b| then i
    else if b[i] == PADDING && !StaysInScan(b[i + 1]) then i + 1
    else ScanEnd(b, i + 1)
  }

  /** The big-endian length field at `i`. */
  function LengthField(b: seq<byte>, i: nat): nat
    requires i + 1 < |b|
  {
    256 * (b[i] as int) + b[i + 1]
  }

  /** What the outer loop returns when it is at index `i`. */
  function Measure(b: seq<byte>, i: nat): nat
    decreases |b| - i
  {
    if i >= |b| then 0
    else if b[i] == PADDING || IsStandalone(b[i]) then Measure(b, i + 1)
    else if b[i] == SOS then Measure(b, ScanEnd(b, i + 1))
    else if b[i] == EOI then i + 1
    else if i + 3 >= |b| then 0
    else Measure(b, i + 1 + LengthField(b, i + 1))
  }

  method GetJpegSize(jpeg: seq<byte>) returns (r: nat)
    ensures r == Measure(jpeg, 0)
  {
    var size := |jpeg|;
    var i := 0;
    while i < size
      invariant Measure(jpeg, i) == Measure(jpeg, 0)
      decreases size - i
    {
      var c := jpeg[i];
      i := i + 1;
      if c == PADDING || IsStandalone(c) {
      } else if c == SOS {
        ghost var start := i;
        while i < size - 1
          invariant start <= i <= size && ScanEnd(jpeg, i) == ScanEnd(jpeg, start)
          decreases size - i
        {
          var d := jpeg[i];
          i := i + 1;
          if d != PADDING {
            continue;
          }
          if StaysInScan(jpeg[i]) {
            continue;
          }
          assert i == ScanEnd(jpeg, start);
          break;
        }
        assert i == ScanEnd(jpeg, start);
      } else if c == EOI {
        return i;
      } else {
        if i + 2 >= size {
          return 0;
        }
        i := i + LengthField(jpeg, i);
      }
    }
    return 0;
  }

  // ---------------------------------------------------------------- every buffer

  /** On any buffer the answer is 0 or the length of a prefix that ends in the EOI code. */
  lemma {:induction false} MeasureEndsAtEoi(b: seq<byte>, i: nat)
    ensures Measure(b, i) != 0 ==> i < Measure(b, i) <= |b| && b[Measure(b, i) - 1] == EOI
    decreases |b| - i
  {
    if i < |b| {
      if b[i] == PADDING || IsStandalone(b[i]) {
        MeasureEndsAtEoi(b, i + 1);
      } else if b[i] == SOS {
        MeasureEndsAtEoi(b, ScanEnd(b, i + 1));
      } else if b[i] != EOI && i + 3 < |b| {
        MeasureEndsAtEoi(b, i + 1 + LengthField(b, i + 1));
      }
    }
  }

  /** Cropping after the scan's end does not move it. */
  lemma {:induction false} ScanEndCropped(b: seq<byte>, i: nat, r: nat)
    requires i <= r <= |b| && ScanEnd(b, i) < r
    ensures ScanEnd(b[..r], i) == ScanEnd(b, i)
    decreases |b| - i
  {
    if i + 1 < |b| && !(b[i] == PADDING && !StaysInScan(b[i + 1])) {
      ScanEndCropped(b, i + 1, r);
    }
  }

  /** Measuring the stored prefix again gives the same answer, whatever the length fields say. */
  lemma {:induction false} MeasureCropped(b: seq<byte>, i: nat)
    requires Measure(b, i) != 0
    ensures Measure(b, i) <= |b| && Measure(b[..Measure(b, i)], i) == Measure(b, i)
    decreases |b| - i
  {
    MeasureEndsAtEoi(b, i);
    var r := Measure(b, i);
    if b[i] == PADDING || IsStandalone(b[i]) {
      MeasureCropped(b, i + 1);
    } else if b[i] == SOS {
      var end := ScanEnd(b, i + 1);
      MeasureEndsAtEoi(b, end);
      ScanEndCropped(b, i + 1, r);
      MeasureCropped(b, end);
    } else if b[i] != EOI {
      var next := i + 1 + LengthField(b, i + 1);
      MeasureEndsAtEoi(b, next);
      // A length of 0 or 1 keeps the index on the length field itself, which holds no EOI code.
      assert r > i + 3;
      MeasureCropped(b, next);
    }
  }

  // ---------------------------------------------------------------- the grammar of images

  /** One marker, preceded by `fill` optional fill bytes, with what belongs to it. */
  datatype Item =
    | Standalone(fill: nat, code: byte)
    | Segment(fill: nat, code: byte, payload: seq<byte>)
    | Scan(fill: nat, data: seq<byte>)

  /** Inside a scan, its header included, every 0xFF is stuffed or starts a restart marker. */
  predicate IsEntropyCoded(data: seq<byte>) {
    forall k :: 0 <= k < |data| && data[k] == PADDING ==> k + 1 < |data| && StaysInScan(data[k + 1])
  }

  predicate ValidItem(item: Item) {
    match item
    case Standalone(_, code) => IsStandalone(code)
    case Segment(_, code, payload) =>
      && code != STUFFING && code != PADDING && !IsStandalone(code) && code != EOI && code != SOS
      && |payload| + 2 < 0x10000
    case Scan(_, data) => IsEntropyCoded(data)
  }

  function Marker(fill: nat, code: byte): (m: seq<byte>)
    ensures |m| == fill + 2
  {
    seq(fill + 1, _ => PADDING) + [code]
  }

  function Code(item: Item): byte {
    match item
    case Standalone(_, code) => code
    case Segment(_, code, _) => code
    case Scan(_, _) => SOS
  }

  function Body(item: Item): seq<byte>
    requires ValidItem(item)
  {
    match item
    case Standalone(_, _) => []
    case Segment(_, _, payload) => var n := |payload| + 2; [n / 256, n % 256] + payload
    case Scan(_, data) => data
  }

  function RenderItem(item: Item): seq<byte>
    requires ValidItem(item)
  {
    Marker(item.fill, Code(item)) + Body(item)
  }

  predicate ValidItems(items: seq<Item>) {
    forall k :: 0 <= k < |items| ==> ValidItem(items[k])
  }

  /** The items in order, then the end-of-image marker. */
  function RenderImage(items: seq<Item>, fill: nat): (image: seq<byte>)
    requires ValidItems(items)
    ensures |image| >= 2
  {
    if items == [] then Marker(fill, EOI) else RenderItem(items[0]) + RenderImage(items[1..], fill)
  }

  /** `s` stands at offset `i` of `b`. */
  predicate At(b: seq<byte>, i: nat, s: seq<byte>) {
    i + |s| <= |b| && b[i..i + |s|] == s
  }

  lemma AtSplit(b: seq<byte>, i: nat, s: seq<byte>, t: seq<byte>)
    requires At(b, i, s + t)
    ensures At(b, i, s) && At(b, i + |s|, t)
  {
    assert s == (s + t)[..|s|] && t == (s + t)[|s|..];
    assert b[i..i + |s + t|][..|s|] == b[i..i + |s|];
    assert b[i..i + |s + t|][|s|..] == b[i + |s|..i + |s| + |t|];
  }

  lemma AtIndex(b: seq<byte>, i: nat, s: seq<byte>, k: nat)
    requires At(b, i, s) && k < |s|
    ensures b[i + k] == s[k]
  {
    assert b[i..i + |s|][k] == s[k];
  }

  /** The outer loop skips 0xFF bytes one by one and reaches the marker code. */
  lemma {:induction false} SkipFill(b: seq<byte>, i: nat, fill: nat, code: byte)
    requires At(b, i, Marker(fill, code))
    ensures Measure(b, i) == Measure(b, i + fill + 1) && b[i + fill + 1] == code
    decreases fill
  {
    AtIndex(b, i, Marker(fill, code), 0);
    AtIndex(b, i, Marker(fill, code), fill + 1);
    if fill > 0 {
      assert Marker(fill, code) == [PADDING] + Marker(fill - 1, code);
      AtSplit(b, i, [PADDING], Marker(fill - 1, code));
      SkipFill(b, i + 1, fill - 1, code);
    }
  }

  /** The inner loop passes over entropy-coded data. */
  lemma {:induction false} SkipEntropy(b: seq<byte>, i: nat, data: seq<byte>)
    requires At(b, i, data) && IsEntropyCoded(data) && i + |data| < |b|
    ensures ScanEnd(b, i) == ScanEnd(b, i + |data|)
    decreases |data|
  {
    if data != [] {
      AtIndex(b, i, data, 0);
      if data[0] == PADDING {
        AtIndex(b, i, data, 1);
      }
      assert data == [data[0]] + data[1..];
      AtSplit(b, i, [data[0]], data[1..]);
      forall k | 0 <= k < |data[1..]| && data[1..][k] == PADDING
        ensures k + 1 < |data[1..]| && StaysInScan(data[1..][k + 1])
      {
        assert data[k + 1] == PADDING;
      }
      SkipEntropy(b, i + 1, data[1..]);
    }
  }

  /** An open scan either ends at this marker, or the marker is a restart that belongs to it. */
  lemma OpenScanMeetsMarker(b: seq<byte>, i: nat, fill: nat, code: byte)
    requires At(b, i, Marker(fill, code)) && code != STUFFING
    ensures Measure(b, ScanEnd(b, i)) == Measure(b, i)
         || (IsRestart(code) && fill == 0 && (i + 2 < |b| ==> ScanEnd(b, i) == ScanEnd(b, i + 2)))
  {
    AtIndex(b, i, Marker(fill, code), 0);
    AtIndex(b, i, Marker(fill, code), 1);
    if fill == 0 && IsRestart(code) && i + 2 < |b| {
      assert ScanEnd(b, i) == ScanEnd(b, i + 1) == ScanEnd(b, i + 2);
    }
  }

  /** The body of a marker: nothing, a counted payload, or a scan. */
  lemma MeasureBody(b: seq<byte>, i: nat, item: Item)
    requires ValidItem(item) && i + 1 + |Body(item)| < |b|
    requires b[i] == Code(item) && At(b, i + 1, Body(item))
    ensures var next := i + 1 + |Body(item)|;
            Measure(b, i) == if item.Scan? then Measure(b, ScanEnd(b, next)) else Measure(b, next)
  {
    match item
    case Standalone(_, _) =>
    case Segment(_, _, payload) =>
      var n := |payload| + 2;
      AtIndex(b, i + 1, Body(item), 0);
      AtIndex(b, i + 1, Body(item), 1);
      assert LengthField(b, i + 1) == n;
    case Scan(_, data) =>
      SkipEntropy(b, i + 1, data);
  }

  /** The outer loop passes over an item that does not end the buffer. */
  lemma MeasureItem(b: seq<byte>, i: nat, item: Item)
    requires ValidItem(item) && At(b, i, RenderItem(item)) && i + |RenderItem(item)| < |b|
    ensures var next := i + |RenderItem(item)|;
            Measure(b, i) == if item.Scan? then Measure(b, ScanEnd(b, next)) else Measure(b, next)
  {
    var code := i + item.fill + 1;
    AtSplit(b, i, Marker(item.fill, Code(item)), Body(item));
    SkipFill(b, i, item.fill, Code(item));
    assert code + 1 + |Body(item)| == i + |RenderItem(item)|;
    MeasureBody(b, code, item);
  }

  /** So does the inner loop, when the item is a lone restart marker; any other item ends it. */
  lemma OpenScanMeetsItem(b: seq<byte>, i: nat, item: Item)
    requires ValidItem(item) && At(b, i, RenderItem(item)) && i + |RenderItem(item)| < |b|
    ensures Measure(b, ScanEnd(b, i)) == Measure(b, i)
         || ScanEnd(b, i) == ScanEnd(b, i + |RenderItem(item)|)
  {
    AtSplit(b, i, Marker(item.fill, Code(item)), Body(item));
    OpenScanMeetsMarker(b, i, item.fill, Code(item));
    if IsRestart(Code(item)) {
      assert item.Standalone? && |RenderItem(item)| == item.fill + 2;
    }
  }

  /** Both the outer loop at `i` and a scan still open at `i` lead to the answer `total`. */
  ghost predicate LeadsTo(b: seq<byte>, i: nat, total: nat) {
    i <= |b| && Measure(b, i) == total && Measure(b, ScanEnd(b, i)) == total
  }

  lemma LeadsToEnd(b: seq<byte>, i: nat, fill: nat)
    requires At(b, i, Marker(fill, EOI))
    ensures LeadsTo(b, i, i + fill + 2)
  {
    SkipFill(b, i, fill, EOI);
    OpenScanMeetsMarker(b, i, fill, EOI);
  }

  lemma LeadsToThroughItem(b: seq<byte>, i: nat, item: Item, total: nat)
    requires ValidItem(item) && At(b, i, RenderItem(item)) && i + |RenderItem(item)| < |b|
    requires LeadsTo(b, i + |RenderItem(item)|, total)
    ensures LeadsTo(b, i, total)
  {
    MeasureItem(b, i, item);
    OpenScanMeetsItem(b, i, item);
  }

  lemma RenderCons(items: seq<Item>, fill: nat)
    requires ValidItems(items) && items != []
    ensures ValidItem(items[0]) && ValidItems(items[1..])
    ensures RenderImage(items, fill) == RenderItem(items[0]) + RenderImage(items[1..], fill)
  {
  }

  lemma {:induction false} MeasureImageAt(b: seq<byte>, i: nat, items: seq<Item>, fill: nat, image: seq<byte>)
    requires ValidItems(items) && image == RenderImage(items, fill) && At(b, i, image)
    ensures LeadsTo(b, i, i + |image|)
    decreases |items|
  {
    if items == [] {
      LeadsToEnd(b, i, fill);
    } else {
      RenderCons(items, fill);
      var first, rest := RenderItem(items[0]), RenderImage(items[1..], fill);
      AtSplit(b, i, first, rest);
      MeasureImageAt(b, i + |first|, items[1..], fill, rest);
      LeadsToThroughItem(b, i, items[0], i + |image|);
    }
  }

  /** Exact measurement: whatever follows an image in the buffer, its length is found. */
  lemma MeasureImage(items: seq<Item>, fill: nat, garbage: seq<byte>)
    requires ValidItems(items)
    ensures Measure(RenderImage(items, fill) + garbage, 0) == |RenderImage(items, fill)|
  {
    var image := RenderImage(items, fill);
    MeasureImageAt(image + garbage, 0, items, fill, image);
  }

  /** Hence no image is a proper prefix of another, however its bytes are read as items. */
  lemma ImagesAreSelfDelimiting(items: seq<Item>, fill: nat, rest: seq<byte>,
                                items': seq<Item>, fill': nat, rest': seq<byte>)
    requires ValidItems(items) && ValidItems(items')
    requires RenderImage(items, fill) + rest == RenderImage(items', fill') + rest'
    ensures RenderImage(items, fill) == RenderImage(items', fill') && rest == rest'
  {
    MeasureImage(items, fill, rest);
    MeasureImage(items', fill', rest');
    var n := |RenderImage(items, fill)|;
    assert RenderImage(items, fill) == (RenderImage(items, fill) + rest)[..n];
    assert RenderImage(items', fill') == (RenderImage(items', fill') + rest')[..n];
    assert rest == (RenderImage(items, fill) + rest)[n..];
    assert rest' == (RenderImage(items', fill') + rest')[n..];
  }

  // ---------------------------------------------------------------- SaveMJPEG

  /** What `SaveMJPEG` writes to the file, or `None` where it fails for want of a length. */
  method SaveMJPEG(data: seq<byte>) returns (stored: Option<seq<byte>>)
    ensures stored.None? <==> Measure(data, 0) == 0
    ensures stored.Some? ==> stored.value <= data && Measure(stored.value, 0) == |stored.value| > 0
    ensures stored.Some? ==> stored.value[|stored.value| - 1] == 0xd9
    ensures forall items, fill {:trigger RenderImage(items, fill)} ::
              ValidItems(items) && RenderImage(items, fill) <= data ==> stored == Some(RenderImage(items, fill))
  {
    var actualSize := GetJpegSize(data);
    MeasureEndsAtEoi(data, 0);
    forall items, fill {:trigger RenderImage(items, fill)} | ValidItems(items) && RenderImage(items, fill) <= data
      ensures actualSize == |RenderImage(items, fill)| && data[..actualSize] == RenderImage(items, fill)
    {
      var image := RenderImage(items, fill);
      assert data == image + data[|image|..];
      MeasureImage(items, fill, data[|image|..]);
    }
    if actualSize == 0 {
      return None;
    }
    MeasureCropped(data, 0);
    stored := Some(data[..actualSize]);
  }
}
