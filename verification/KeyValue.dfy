/** Two `getline`-based lookups, `GetParamValue` and `GetProperty`, over one model of an input string stream. */
module KeyValue {

  // ---------------------------------------------------------------- std::stringstream and std::getline

  /** What is left to read, and whether the stream is still good (neither at end of file nor failed). */
  datatype Stream = Stream(rest: string, good: bool)

  /** The extracted line, the stream after it, and whether the call succeeded. */
  datatype Line = Line(text: string, after: Stream, ok: bool)

  /** Index of the first `c` in `s`, or `|s|`. */
  function Find(s: string, c: char): (i: nat)
    ensures i <= |s|
    ensures forall k :: 0 <= k < i ==> s[k] != c
    ensures i < |s| ==> s[i] == c
  {
    if s == "" || s[0] == c then 0 else 1 + Find(s[1..], c)
  }

  /** `getline(stream, text, delim)`: the delimiter is consumed and dropped; running into the end of the
      input spoils the stream, and succeeds only if something was extracted. */
  function GetLine(s: Stream, delim: char): (line: Line)
    ensures line.ok ==> s.good && |line.after.rest| < |s.rest|
  {
    if !s.good then Line("", s, false)
    else
      var i := Find(s.rest, delim);
      if i < |s.rest| then Line(s.rest[..i], Stream(s.rest[i + 1..], true), true)
      else Line(s.rest, Stream("", false), s.rest != "")
  }

  class StringStream {
    var rest: string
    var good: bool

    ghost function View(): Stream
      reads this
    {
      Stream(rest, good)
    }

    constructor (text: string)
      ensures View() == Stream(text, true)
    {
      rest, good := text, true;
    }

    /** Extracts character by character, as the library does. */
    method Read(delim: char) returns (ok: bool, text: string)
      modifies this
      ensures var line := GetLine(old(View()), delim);
              ok == line.ok && View() == line.after && (ok ==> text == line.text)
    {
      text := "";
      if !good {
        return false, text;
      }
      ghost var whole := rest;
      ghost var i := Find(rest, delim);
      while |rest| > 0
        invariant good && |text| <= i && text == whole[..|text|] && rest == whole[|text|..]
        decreases |rest|
      {
        var c := rest[0];
        assert c == whole[|text|];
        rest := rest[1..];
        if c == delim {
          assert |text| == i;
          return true, text;
        }
        text := text + [c];
      }
      good := false;
      assert text == whole;
      ok := text != "";
    }
  }

  lemma FindFirst(a: string, c: char, b: string)
    requires c !in a
    ensures Find(a + [c] + b, c) == |a|
  {
    var s := a + [c] + b;
    assert s[|a|] == c;
    assert forall k :: 0 <= k < |a| ==> s[k] == a[k];
  }

  lemma FindNone(a: string, c: char)
    requires c !in a
    ensures Find(a, c) == |a|
  {
    assert forall k :: 0 <= k < |a| ==> a[k] in a;
  }

  /** Reading up to a delimiter that is there. */
  lemma GetLineDelimited(a: string, delim: char, b: string)
    requires delim !in a
    ensures GetLine(Stream(a + [delim] + b, true), delim) == Line(a, Stream(b, true), true)
  {
    FindFirst(a, delim, b);
    var s := a + [delim] + b;
    assert s[..|a|] == a && s[|a| + 1..] == b;
  }

  /** Reading a last line that no delimiter ends. */
  lemma GetLineToEnd(a: string, delim: char)
    requires delim !in a
    ensures GetLine(Stream(a, true), delim) == Line(a, Stream("", false), a != "")
  {
    FindNone(a, delim);
  }

  // ---------------------------------------------------------------- GetParamValue

  datatype Pair = Pair(name: string, value: string)

  /** The loop of `GetParamValue`, from a stream that stands at a name. */
  function ParamIn(s: Stream, name: string): string
    decreases |s.rest|
  {
    var key := GetLine(s, '=');
    if !key.ok then ""
    else
      var val := GetLine(key.after, '&');
      if !val.ok then ""
      else if key.text == name then val.text
      else ParamIn(val.after, name)
  }

  function Param(uri: string, name: string): string {
    ParamIn(GetLine(Stream(uri, true), '?').after, name)
  }

  method GetParamValue(uri: string, name: string) returns (value: string)
    ensures value == Param(uri, name)
  {
    var ss := new StringStream(uri);
    var ok, key := ss.Read('?');
    while true
      invariant ParamIn(ss.View(), name) == Param(uri, name)
      decreases |ss.rest|
    {
      ok, key := ss.Read('=');
      if !ok {
        return "";
      }
      var val;
      ok, val := ss.Read('&');
      if !ok {
        return "";
      }
      if key == name {
        return val;
      }
    }
  }

  /** Names without '=', values without '&'. */
  predicate Printable(p: Pair) { '=' !in p.name && '&' !in p.value }

  predicate AllPrintable(pairs: seq<Pair>) {
    forall k :: 0 <= k < |pairs| ==> Printable(pairs[k])
  }

  function PrintPairs(pairs: seq<Pair>): string {
    if pairs == [] then ""
    else if |pairs| == 1 then pairs[0].name + ['='] + pairs[0].value
    else pairs[0].name + ['='] + (pairs[0].value + ['&'] + PrintPairs(pairs[1..]))
  }

  function PrintQuery(path: string, pairs: seq<Pair>): string { path + "?" + PrintPairs(pairs) }

  /** The first value bound to `name`, or empty. */
  function Lookup(pairs: seq<Pair>, name: string): string {
    if pairs == [] then ""
    else if pairs[0].name == name then pairs[0].value
    else Lookup(pairs[1..], name)
  }

  /** The loop reads back the last printed field ... */
  lemma ParamInLast(p: Pair, name: string)
    requires Printable(p)
    ensures ParamIn(Stream(p.name + ['='] + p.value, true), name) == if p.name == name then p.value else ""
  {
    GetLineDelimited(p.name, '=', p.value);
    GetLineToEnd(p.value, '&');
  }

  /** ... and a field that others follow. */
  lemma ParamInNext(p: Pair, rest: string, name: string)
    requires Printable(p)
    ensures ParamIn(Stream(p.name + ['='] + (p.value + ['&'] + rest), true), name)
         == if p.name == name then p.value else ParamIn(Stream(rest, true), name)
  {
    GetLineDelimited(p.name, '=', p.value + ['&'] + rest);
    GetLineDelimited(p.value, '&', rest);
  }

  lemma {:induction false} ParamInPrinted(pairs: seq<Pair>, name: string)
    requires AllPrintable(pairs)
    ensures ParamIn(Stream(PrintPairs(pairs), true), name) == Lookup(pairs, name)
  {
    if |pairs| == 1 {
      ParamInLast(pairs[0], name);
      assert Lookup(pairs[1..], name) == "";
    } else if |pairs| > 1 {
      ParamInNext(pairs[0], PrintPairs(pairs[1..]), name);
      ParamInPrinted(pairs[1..], name);
    }
  }

  /** Query parse undoes query print. */
  lemma ParamOfPrinted(path: string, pairs: seq<Pair>, name: string)
    requires '?' !in path && AllPrintable(pairs)
    ensures Param(PrintQuery(path, pairs), name) == Lookup(pairs, name)
  {
    assert PrintQuery(path, pairs) == path + ['?'] + PrintPairs(pairs);
    GetLineDelimited(path, '?', PrintPairs(pairs));
    ParamInPrinted(pairs, name);
  }

  /** A URI without a query has no parameters. */
  lemma NoQuery(uri: string, name: string)
    requires '?' !in uri
    ensures Param(uri, name) == ""
  {
    GetLineToEnd(uri, '?');
  }

  function Field(before: string, name: string, value: string, after: string): string {
    before + name + "=" + value + after
  }

  predicate StartsField(before: string) {
    before != "" && (before[|before| - 1] == '?' || before[|before| - 1] == '&')
  }

  /** `uri` holds `name=value`, after a '?' or '&' and before a '&' or the end. */
  ghost predicate OccursIn(uri: string, name: string, value: string) {
    exists before, after ::
      uri == Field(before, name, value, after) && StartsField(before) && (after == "" || after[0] == '&')
  }

  lemma GetLineSplits(s: Stream, delim: char)
    requires GetLine(s, delim).ok
    ensures var line := GetLine(s, delim);
            && (line.after.good ==> s.rest == line.text + [delim] + line.after.rest)
            && (!line.after.good ==> s.rest == line.text && line.after.rest == "")
  {
  }

  lemma NextField(before: string, key: string, value: string, after: string)
    ensures Field(before, key, value, ['&'] + after) == Field(before, key, value, ['&']) + after
  {
  }

  lemma JoinLines(before: string, key: string, value: string, after: string)
    ensures before + (key + ['='] + (value + after)) == Field(before, key, value, after)
  {
    assert before + (key + ['='] + (value + after)) == before + key + (['='] + (value + after));
  }

  /** What two reads split, put together again. */
  lemma JoinReads(before: string, key: string, value: string, more: bool, tail: string)
    ensures var middle := if more then value + ['&'] + tail else value;
            before + (key + ['='] + middle) == Field(before, key, value, if more then ['&'] + tail else "")
  {
    if more {
      assert value + ['&'] + tail == value + (['&'] + tail);
      JoinLines(before, key, value, ['&'] + tail);
    } else {
      assert value == value + "";
      JoinLines(before, key, value, "");
    }
  }

  /** One turn of the loop reads one field; if it is not the last, the next begins after its '&'. */
  lemma ReadField(uri: string, before: string, s: Stream, key: Line, val: Line)
    requires uri == before + s.rest
    requires key == GetLine(s, '=') && key.ok && val == GetLine(key.after, '&') && val.ok
    ensures uri == Field(before, key.text, val.text, if val.after.good then ['&'] + val.after.rest else "")
    ensures val.after.good ==> uri == Field(before, key.text, val.text, ['&']) + val.after.rest
  {
    GetLineSplits(s, '=');
    GetLineSplits(key.after, '&');
    JoinReads(before, key.text, val.text, val.after.good, val.after.rest);
    NextField(before, key.text, val.text, val.after.rest);
  }

  lemma HereItIs(uri: string, before: string, name: string, value: string, after: string)
    requires uri == Field(before, name, value, after) && StartsField(before) && (after == "" || after[0] == '&')
    ensures OccursIn(uri, name, value)
  {
  }

  lemma {:induction false} ParamInOccurs(uri: string, before: string, s: Stream, name: string)
    requires uri == before + s.rest && StartsField(before)
    requires ParamIn(s, name) != ""
    ensures OccursIn(uri, name, ParamIn(s, name))
    decreases |s.rest|
  {
    var key := GetLine(s, '=');
    var val := GetLine(key.after, '&');
    ReadField(uri, before, s, key, val);
    if key.text == name {
      HereItIs(uri, before, name, val.text, if val.after.good then ['&'] + val.after.rest else "");
    } else {
      ParamInOccurs(uri, Field(before, key.text, val.text, ['&']), val.after, name);
    }
  }

  /** On any URI, a non-empty answer is really there under the name asked for. */
  lemma ParamOccurs(uri: string, name: string)
    requires Param(uri, name) != ""
    ensures OccursIn(uri, name, Param(uri, name))
  {
    var path := GetLine(Stream(uri, true), '?');
    if path.after.good {
      GetLineSplits(Stream(uri, true), '?');
      ParamInOccurs(uri, path.text + ['?'], path.after, name);
    }
  }

  // ---------------------------------------------------------------- GetProperty

  datatype StatusLine = Property(key: string, value: string) | Other(text: string)

  /** The loop of `GetProperty`. */
  function PropertyIn(s: Stream, property: string): string
    decreases |s.rest|
  {
    var line := GetLine(s, '\n');
    if !line.ok then ""
    else
      var pos := Find(line.text, '=');
      if pos < |line.text| && line.text[..pos] == property then line.text[pos + 1..]
      else PropertyIn(line.after, property)
  }

  method GetProperty(blob: string, property: string) returns (value: string)
    ensures value == PropertyIn(Stream(blob, true), property)
  {
    var ss := new StringStream(blob);
    while true
      invariant PropertyIn(ss.View(), property) == PropertyIn(Stream(blob, true), property)
      decreases |ss.rest|
    {
      var ok, to := ss.Read('\n');
      if !ok {
        return "";
      }
      var pos := Find(to, '=');
      if pos < |to| {
        var token := to[..pos];
        if token == property {
          return to[pos + 1..];
        }
      }
    }
  }

  function LineText(line: StatusLine): string {
    match line
    case Property(key, value) => key + "=" + value
    case Other(text) => text
  }

  predicate PrintableLine(line: StatusLine) {
    && '\n' !in LineText(line)
    && match line
       case Property(key, _) => '=' !in key
       case Other(text) => '=' !in text
  }

  predicate AllPrintableLines(lines: seq<StatusLine>) {
    forall k :: 0 <= k < |lines| ==> PrintableLine(lines[k])
  }

  /** The lines, separated by newlines, with or without one at the end. */
  function PrintStatus(lines: seq<StatusLine>, finalNewline: bool): string {
    if lines == [] then ""
    else if |lines| == 1 then LineText(lines[0]) + (if finalNewline then "\n" else "")
    else LineText(lines[0]) + "\n" + PrintStatus(lines[1..], finalNewline)
  }

  function LookupLine(lines: seq<StatusLine>, property: string): string {
    if lines == [] then ""
    else match lines[0]
         case Property(key, value) => if key == property then value else LookupLine(lines[1..], property)
         case Other(_) => LookupLine(lines[1..], property)
  }

  /** Splitting a printed line at its first '=' gives back what was printed. */
  lemma SplitPrinted(line: StatusLine)
    requires PrintableLine(line)
    ensures var text := LineText(line);
            var pos := Find(text, '=');
            match line
            case Property(key, value) => pos < |text| && text[..pos] == key && text[pos + 1..] == value
            case Other(_) => pos == |text|
  {
    match line
    case Property(key, value) =>
      assert LineText(line) == key + ['='] + value;
      FindFirst(key, '=', value);
    case Other(text) =>
      FindNone(text, '=');
  }

  /** Status parse undoes status print. */
  lemma {:induction false} PropertyOfPrinted(lines: seq<StatusLine>, finalNewline: bool, property: string)
    requires AllPrintableLines(lines)
    ensures PropertyIn(Stream(PrintStatus(lines, finalNewline), true), property) == LookupLine(lines, property)
  {
    if lines != [] {
      var text := LineText(lines[0]);
      SplitPrinted(lines[0]);
      if |lines| == 1 && !finalNewline {
        assert PrintStatus(lines, finalNewline) == text;
        GetLineToEnd(text, '\n');
        assert LookupLine(lines[1..], property) == "";
      } else {
        var rest := if |lines| == 1 then "" else PrintStatus(lines[1..], finalNewline);
        assert PrintStatus(lines, finalNewline) == text + ['\n'] + rest;
        GetLineDelimited(text, '\n', rest);
        PropertyOfPrinted(lines[1..], finalNewline, property);
      }
    }
  }
}
