/** Exactly which byte strings `GetJpegSize` takes for an image: a grammar more lenient than that of
    ITU-T T.81, written in octets, and a proof that the walk recognises it, no more and no less. */
module JpegLanguage {
  import opened Bytes
  import opened Jpeg

  predicate IsRestartOctet(c: byte) { 0xd0 <= c <= 0xd7 }

  /** The octets that the outer loop passes over by themselves: fill, TEM, SOI and the restarts. */
  predicate IsBare(c: byte) { c == 0xff || c == 0x01 || c == 0xd8 || IsRestartOctet(c) }

  /** Any other octet but SOS and EOI is taken for a marker with a length field, 0x00 included. */
  predicate IsCounted(c: byte) { !IsBare(c) && c != 0xda && c != 0xd9 }

  predicate StaysOpen(c: byte) { c == 0x00 || IsRestartOctet(c) }

  /** In a scan every 0xFF is followed by 0x00 or by the code of a restart. */
  predicate IsScanData(data: seq<byte>) {
    forall k :: 0 <= k < |data| && data[k] == 0xff ==> k + 1 < |data| && StaysOpen(data[k + 1])
  }

  /** One step of the outer loop; no marker needs a 0xFF before it. */
  datatype Token =
    | Skip(code: byte)                      // 0xFF or a marker without a length
    | Counted(code: byte, body: seq<byte>)  // a length field of at least 2, and what it counts
    | ZeroLength(code: byte)                // length 0: the walk goes on at the length field itself
    | OneLength(code: byte)                 // length 1: it goes on at the second octet of the field
    | ClosedScan(data: seq<byte>)           // a scan up to the 0xFF that the next octet makes its end

  /** The end of the walk: the EOI code, or a scan that runs up to an EOI code in the buffer's last octet. */
  datatype Ending = AtEoi | InScan(data: seq<byte>)

  function RenderToken(t: Token): (s: seq<byte>)
    requires t.Counted? ==> |t.body| + 2 < 0x10000
    ensures |s| > 0
  {
    match t
    case Skip(code) => [code]
    case Counted(code, body) => var n := |body| + 2; [code, n / 256, n % 256] + body
    case ZeroLength(code) => [code]
    case OneLength(code) => [code, 0]
    case ClosedScan(data) => [0xda] + data + [0xff]
  }

  function RenderEnding(e: Ending): (s: seq<byte>)
    ensures |s| > 0
  {
    match e
    case AtEoi => [0xd9]
    case InScan(data) => [0xda] + data + [0xd9]
  }

  /** What `t` demands of itself and of the octets after it. */
  predicate Fits(t: Token, next: seq<byte>) {
    |next| > 0 &&
    match t
    case Skip(code) => IsBare(code)
    case Counted(code, body) => IsCounted(code) && |body| + 2 < 0x10000
    case ZeroLength(code) => IsCounted(code) && |next| > 2 && next[0] == 0 && next[1] == 0
    case OneLength(code) => IsCounted(code) && |next| > 1 && next[0] == 1
    case ClosedScan(data) => IsScanData(data) && !StaysOpen(next[0])
  }

  /** The words of the language, token by token. */
  ghost predicate IsWord(word: seq<byte>, tokens: seq<Token>, ending: Ending)
    decreases |tokens|
  {
    if tokens == [] then word == RenderEnding(ending) && (ending.InScan? ==> IsScanData(ending.data))
    else exists next ::
      Fits(tokens[0], next) && word == RenderToken(tokens[0]) + next && IsWord(next, tokens[1..], ending)
  }

  // ---------------------------------------------------------------- every word is measured

  /** The inner loop passes over entropy-coded data and stops after the 0xFF behind it. */
  lemma ScanCloses(b: seq<byte>, i: nat, data: seq<byte>)
    requires At(b, i, data + [0xff]) && IsScanData(data)
    requires i + |data| + 1 < |b| && !StaysOpen(b[i + |data| + 1])
    ensures ScanEnd(b, i) == i + |data| + 1
  {
    AtSplit(b, i, data, [0xff]);
    AtIndex(b, i + |data|, [0xff], 0);
    SkipEntropy(b, i, data);
  }

  lemma MeasureToken(b: seq<byte>, i: nat, t: Token, next: seq<byte>)
    requires Fits(t, next) && At(b, i, RenderToken(t) + next)
    ensures Measure(b, i) == Measure(b, i + |RenderToken(t)|)
  {
    if t.ClosedScan? {
      MeasureClosedScan(b, i, t.data, next);
    } else {
      var word := RenderToken(t) + next;
      AtIndex(b, i, word, 0);
      AtIndex(b, i, word, |RenderToken(t)|);
      if !t.Skip? {
        MeasureCounted(b, i, t, next);
      }
    }
  }

  lemma MeasureCounted(b: seq<byte>, i: nat, t: Token, next: seq<byte>)
    requires Fits(t, next) && (t.Counted? || t.ZeroLength? || t.OneLength?) && At(b, i, RenderToken(t) + next)
    ensures i + 3 < |b| && b[i] == t.code && i + 1 + LengthField(b, i + 1) == i + |RenderToken(t)|
  {
    var word := RenderToken(t) + next;
    assert |word| > 3;
    AtIndex(b, i, word, 0);
    AtIndex(b, i, word, 1);
    AtIndex(b, i, word, 2);
  }

  lemma MeasureClosedScan(b: seq<byte>, i: nat, data: seq<byte>, next: seq<byte>)
    requires Fits(ClosedScan(data), next) && At(b, i, RenderToken(ClosedScan(data)) + next)
    ensures Measure(b, i) == Measure(b, i + |data| + 2)
  {
    var word := RenderToken(ClosedScan(data)) + next;
    AtIndex(b, i, word, 0);
    AtIndex(b, i, word, |data| + 2);
    assert word == [0xda] + (data + [0xff] + next);
    AtSplit(b, i, [0xda], data + [0xff] + next);
    AtSplit(b, i + 1, data + [0xff], next);
    ScanCloses(b, i + 1, data);
  }

  lemma MeasureEnding(b: seq<byte>, i: nat, e: Ending)
    requires At(b, i, RenderEnding(e))
    requires e.InScan? ==> IsScanData(e.data) && i + |RenderEnding(e)| == |b|
    ensures Measure(b, i) == i + |RenderEnding(e)|
  {
    AtIndex(b, i, RenderEnding(e), 0);
    if e.InScan? {
      assert RenderEnding(e) == [0xda] + (e.data + [0xd9]);
      AtSplit(b, i, [0xda], e.data + [0xd9]);
      AtSplit(b, i + 1, e.data, [0xd9]);
      AtIndex(b, i + 1 + |e.data|, [0xd9], 0);
      SkipEntropy(b, i + 1, e.data);
    }
  }

  lemma {:induction false} MeasureWord(b: seq<byte>, i: nat, word: seq<byte>, tokens: seq<Token>, ending: Ending)
    requires IsWord(word, tokens, ending) && At(b, i, word)
    requires ending.InScan? ==> i + |word| == |b|
    ensures Measure(b, i) == i + |word|
    decreases |tokens|
  {
    if tokens == [] {
      MeasureEnding(b, i, ending);
    } else {
      var t := tokens[0];
      var next :| Fits(t, next) && word == RenderToken(t) + next && IsWord(next, tokens[1..], ending);
      AtSplit(b, i, RenderToken(t), next);
      MeasureToken(b, i, t, next);
      MeasureWord(b, i + |RenderToken(t)|, next, tokens[1..], ending);
    }
  }

  // ---------------------------------------------------------------- everything measured is a word

  /** What the inner loop has seen when it stops at `end`: only stuffed bytes and restarts, and behind them
      either the 0xFF it stopped at or the last octet of the buffer. */
  lemma {:induction false} ScanStops(b: seq<byte>, i: nat)
    requires i < |b|
    ensures var end := ScanEnd(b, i);
            && end < |b|
            && (forall k :: i <= k && k + 1 < end && b[k] == 0xff ==> StaysOpen(b[k + 1]))
            && (end == |b| - 1 || (i < end && b[end - 1] == 0xff && !StaysOpen(b[end])))
    decreases |b| - i
  {
    if i + 1 < |b| && !(b[i] == 0xff && !StaysOpen(b[i + 1])) {
      ScanStops(b, i + 1);
    }
  }

  lemma SliceIsScanData(b: seq<byte>, i: nat, j: nat)
    requires i <= j <= |b| && (i < j ==> b[j - 1] != 0xff)
    requires forall k :: i <= k && k + 1 < j && b[k] == 0xff ==> StaysOpen(b[k + 1])
    ensures IsScanData(b[i..j])
  {
    forall k | 0 <= k < j - i && b[i..j][k] == 0xff
      ensures k + 1 < j - i && StaysOpen(b[i..j][k + 1])
    {
      assert b[i + k] == 0xff;
    }
  }

  /** The token the outer loop takes at `i`, when it is neither the EOI code nor an unfinished scan. */
  lemma NextToken(b: seq<byte>, i: nat, r: nat) returns (t: Token, j: nat)
    requires r == Measure(b, i) && r != 0 && b[i] != 0xd9
    requires b[i] == 0xda ==> ScanEnd(b, i + 1) > i + 1 && b[ScanEnd(b, i + 1) - 1] == 0xff
    ensures i < j < r <= |b| && Measure(b, j) == r
    ensures Fits(t, b[j..r]) && b[i..r] == RenderToken(t) + b[j..r]
  {
    MeasureEndsAtEoi(b, i);
    var c := b[i];
    if IsBare(c) {
      t, j := Skip(c), i + 1;
      MeasureEndsAtEoi(b, j);
    } else if c == 0xda {
      j := ScanEnd(b, i + 1);
      MeasureEndsAtEoi(b, j);
      ScanStops(b, i + 1);
      t := ClosedScanToken(b, i, j, r);
    } else {
      t, j := CountedToken(b, i, r);
    }
  }

  lemma ClosedScanToken(b: seq<byte>, i: nat, j: nat, r: nat) returns (t: Token)
    requires i + 1 < j < r <= |b| && b[i] == 0xda && j == ScanEnd(b, i + 1)
    requires b[j - 1] == 0xff && r == Measure(b, j) && r != 0
    ensures Fits(t, b[j..r]) && b[i..r] == RenderToken(t) + b[j..r]
  {
    ScanStops(b, i + 1);
    MeasureEndsAtEoi(b, j);
    // At the last octet only the EOI code gives an answer, so the 0xFF before it did end the scan.
    assert !StaysOpen(b[j]);
    if i + 1 < j - 1 {
      assert b[j - 2] == 0xff ==> StaysOpen(b[j - 1]);
    }
    SliceIsScanData(b, i + 1, j - 1);
    t := ClosedScan(b[i + 1..j - 1]);
    assert b[i..r] == [0xda] + b[i + 1..j - 1] + [0xff] + b[j..r];
  }

  lemma CountedToken(b: seq<byte>, i: nat, r: nat) returns (t: Token, j: nat)
    requires r == Measure(b, i) && r != 0 && IsCounted(b[i])
    ensures i < j < r <= |b| && Measure(b, j) == r
    ensures Fits(t, b[j..r]) && b[i..r] == RenderToken(t) + b[j..r]
  {
    MeasureEndsAtEoi(b, i);
    var n := LengthField(b, i + 1);
    j := i + 1 + n;
    MeasureEndsAtEoi(b, j);
    assert n / 256 == b[i + 1] && n % 256 == b[i + 2];
    if n == 0 {
      t := ZeroLength(b[i]);
    } else if n == 1 {
      t := OneLength(b[i]);
    } else {
      t := Counted(b[i], b[i + 3..j]);
      assert b[i..r] == [b[i], b[i + 1], b[i + 2]] + b[i + 3..j] + b[j..r];
    }
  }

  lemma {:induction false} MeasuredIsWord(b: seq<byte>, i: nat, r: nat) returns (tokens: seq<Token>, ending: Ending)
    requires r == Measure(b, i) && r != 0
    ensures i < r <= |b| && IsWord(b[i..r], tokens, ending)
    ensures ending.InScan? ==> r == |b|
    decreases |b| - i
  {
    MeasureEndsAtEoi(b, i);
    if b[i] == 0xd9 {
      tokens, ending := [], AtEoi;
      assert b[i..r] == [0xd9];
    } else if b[i] == 0xda && !(ScanEnd(b, i + 1) > i + 1 && b[ScanEnd(b, i + 1) - 1] == 0xff) {
      tokens := [];
      ending := UnfinishedScan(b, i, r);
    } else {
      var t, j := NextToken(b, i, r);
      var rest;
      rest, ending := MeasuredIsWord(b, j, r);
      tokens := [t] + rest;
      assert tokens[1..] == rest;
    }
  }

  lemma UnfinishedScan(b: seq<byte>, i: nat, r: nat) returns (ending: Ending)
    requires r == Measure(b, i) && r != 0 && b[i] == 0xda
    requires !(ScanEnd(b, i + 1) > i + 1 && b[ScanEnd(b, i + 1) - 1] == 0xff)
    ensures i < r == |b| && b[i..r] == RenderEnding(ending) && ending.InScan? && IsScanData(ending.data)
  {
    MeasureEndsAtEoi(b, i);
    var end := ScanEnd(b, i + 1);
    MeasureEndsAtEoi(b, end);
    ScanStops(b, i + 1);
    SliceIsScanData(b, i + 1, end);
    ending := InScan(b[i + 1..end]);
    assert b[end] == 0xd9;
    assert b[i..r] == [0xda] + b[i + 1..end] + [0xd9];
  }

  /** The first `r` octets are a word of the language; a word that ends inside a scan must end the buffer. */
  ghost predicate BeginsWithWord(b: seq<byte>, r: nat) {
    r <= |b| && exists tokens, ending :: IsWord(b[..r], tokens, ending) && (ending.InScan? ==> r == |b|)
  }

  /** The walk is an exact recogniser: it answers `r` if and only if the buffer begins with a word of length `r`. */
  lemma MeasureRecognises(b: seq<byte>, r: nat)
    requires r != 0
    ensures Measure(b, 0) == r <==> BeginsWithWord(b, r)
  {
    if Measure(b, 0) == r {
      var tokens, ending := MeasuredIsWord(b, 0, r);
      assert b[..r] == b[0..r];
    }
    if BeginsWithWord(b, r) {
      var tokens, ending :| IsWord(b[..r], tokens, ending) && (ending.InScan? ==> r == |b|);
      assert b[0..0 + r] == b[..r];
      MeasureWord(b, 0, b[..r], tokens, ending);
    }
  }

  // ---------------------------------------------------------------- a plain image, octet by octet

  /** A marker segment: code, length field, payload. */
  datatype MarkerSegment = MarkerSegment(code: byte, hi: byte, lo: byte, payload: seq<byte>)

  predicate IsSegment(s: MarkerSegment) {
    0x02 <= s.code <= 0xfe && !(0xd0 <= s.code <= 0xda) && 256 * (s.hi as int) + s.lo == |s.payload| + 2
  }

  function SegmentOctets(segments: seq<MarkerSegment>): seq<byte> {
    if segments == [] then []
    else
      var s := segments[0];
      [0xff, s.code, s.hi, s.lo] + s.payload + SegmentOctets(segments[1..])
  }

  function ScanOctets(data: seq<byte>): seq<byte> { [0xff, 0xda] + data + [0xff, 0xd9] }

  function ImageOctets(segments: seq<MarkerSegment>, data: seq<byte>): seq<byte> {
    [0xff, 0xd8] + SegmentOctets(segments) + ScanOctets(data)
  }

  function ItemsOf(segments: seq<MarkerSegment>, data: seq<byte>): seq<Item> {
    if segments == [] then [Scan(0, data)]
    else [Segment(0, segments[0].code, segments[0].payload)] + ItemsOf(segments[1..], data)
  }

  lemma {:induction false} RenderSegments(segments: seq<MarkerSegment>, data: seq<byte>)
    requires (forall k :: 0 <= k < |segments| ==> IsSegment(segments[k])) && IsScanData(data)
    ensures ValidItems(ItemsOf(segments, data))
    ensures RenderImage(ItemsOf(segments, data), 0) == SegmentOctets(segments) + ScanOctets(data)
  {
    var items := ItemsOf(segments, data);
    if segments == [] {
      RenderScan(data);
    } else {
      var rest := segments[1..];
      RenderSegments(rest, data);
      assert items[1..] == ItemsOf(rest, data);
      RenderSegment(segments[0]);
      assert RenderImage(items, 0) == RenderItem(items[0]) + RenderImage(items[1..], 0);
    }
  }

  lemma RenderSegment(s: MarkerSegment)
    requires IsSegment(s)
    ensures ValidItem(Segment(0, s.code, s.payload))
    ensures RenderItem(Segment(0, s.code, s.payload)) == [0xff, s.code, s.hi, s.lo] + s.payload
  {
    var n := |s.payload| + 2;
    assert n / 256 == s.hi && n % 256 == s.lo;
    assert Marker(0, s.code) == [0xff, s.code];
  }

  lemma RenderScan(data: seq<byte>)
    requires IsScanData(data)
    ensures ValidItem(Scan(0, data)) && RenderImage([Scan(0, data)], 0) == ScanOctets(data)
  {
    var items := [Scan(0, data)];
    assert items[1..] == [];
    assert RenderItem(items[0]) == [0xff, 0xda] + data;
    assert RenderImage([], 0) == [0xff, 0xd9];
  }

  /** SOI, any segments, a scan and EOI are measured exactly, whatever follows. */
  lemma MeasureOctets(segments: seq<MarkerSegment>, data: seq<byte>, garbage: seq<byte>)
    requires (forall k :: 0 <= k < |segments| ==> IsSegment(segments[k])) && IsScanData(data)
    ensures Measure(ImageOctets(segments, data) + garbage, 0) == |ImageOctets(segments, data)|
  {
    RenderSegments(segments, data);
    var rest := ItemsOf(segments, data);
    var items := [Standalone(0, 0xd8)] + rest;
    assert items[1..] == rest;
    assert RenderItem(items[0]) == [0xff, 0xd8];
    assert RenderImage(items, 0) == ImageOctets(segments, data);
    MeasureImage(items, 0, garbage);
  }
}
