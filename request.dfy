/**
 * What `parse_request` reads: the request line, split on whitespace into
 * method, target and protocol, and the header lines up to the first blank
 * line, each split once on `": "`.  Input is the sequence of lines
 * `readline()` returns, each with its line end; an empty string is the end
 * of input.
 */
module Request {
  import opened Wrappers
  import opened Strings

  /** The handler fields the request line sets. */
  datatype Fields = Fields(methodName: string, path: string, protocol: string)

  /** The values `__init__` gives them. */
  const InitialFields := Fields("", "", "HTTP/1.1")

  /** The request line without its trailing `\r`/`\n` run (`raw_request`). */
  function RawRequest(line: string): string {
    RStripLineEnds(line)
  }

  /** The request line applied to the fields: three tokens set all three,
      two set method and path, any other count changes nothing. */
  function ApplyRequestLine(line: string, f: Fields): Fields {
    var parts := Words(RawRequest(line));
    if |parts| == 3 then Fields(parts[0], parts[1], parts[2])
    else if |parts| == 2 then Fields(parts[0], parts[1], f.protocol)
    else f
  }

  /** The lines that end the header block: `\r\n`, `\n`, or end of input. */
  predicate IsBlank(line: string) {
    line == "\r\n" || line == "\n" || line == ""
  }

  const HeaderSep := ": "

  /** `name, body = line.rstrip('\r\n').split(': ')`: succeeds only when the
      split yields exactly two pieces. */
  function SplitHeader(line: string): Option<(string, string)> {
    var parts := SplitOn(RStripLineEnds(line), HeaderSep);
    if |parts| == 2 then Some((parts[0], parts[1])) else None
  }

  /** The state the header loop leaves: the header map, the unread lines,
      and whether the loop ended at a blank line (`true`) or with an
      unpacking error (`false`). */
  datatype HeaderScan = HeaderScan(headers: map<string, string>, rest: seq<string>, ok: bool)

  /** The `while True` loop over header lines, starting from the map `acc`. */
  function ScanHeaders(lines: seq<string>, acc: map<string, string>): HeaderScan
    decreases |lines|
  {
    if lines == [] then HeaderScan(acc, [], true)
    else if IsBlank(lines[0]) then HeaderScan(acc, lines[1..], true)
    else
      match SplitHeader(lines[0])
      case None => HeaderScan(acc, lines[1..], false)
      case Some(h) => ScanHeaders(lines[1..], acc[h.0 := h.1])
  }

  /** Header lines that all unpack, none of them blank. */
  predicate GoodHeaders(lines: seq<string>) {
    forall i :: 0 <= i < |lines| ==> !IsBlank(lines[i]) && SplitHeader(lines[i]).Some?
  }

  /** The name/value pairs of header lines that all unpack, in order. */
  function Pairs(lines: seq<string>): (ps: seq<(string, string)>)
    requires forall i :: 0 <= i < |lines| ==> SplitHeader(lines[i]).Some?
    ensures |ps| == |lines|
    ensures forall i :: 0 <= i < |lines| ==> ps[i] == SplitHeader(lines[i]).value
    decreases |lines|
  {
    if lines == [] then []
    else
      [SplitHeader(lines[0]).value] + Pairs(lines[1..])
  }

  /** The reference reading of a header block: the map built by inserting
      the pairs one after the other, so the last pair for a name decides
      its value. */
  function HeaderMap(acc: map<string, string>, ps: seq<(string, string)>): map<string, string>
    decreases |ps|
  {
    if ps == [] then acc
    else HeaderMap(acc, ps[..|ps| - 1])[ps[|ps| - 1].0 := ps[|ps| - 1].1]
  }

  /** What `readline()` returns first: the first line, or `""` at end of input. */
  function FirstLine(lines: seq<string>): string {
    if lines == [] then "" else lines[0]
  }

  /** The lines left after one `readline()`. */
  function LaterLines(lines: seq<string>): seq<string> {
    if lines == [] then [] else lines[1..]
  }

  /** All of `parse_request` applied to fields `f` and header map `acc`:
      the new fields, `raw_request`, and the header loop's outcome. */
  datatype Parsed = Parsed(fields: Fields, raw: string, scan: HeaderScan)

  function ParseLines(lines: seq<string>, f: Fields, acc: map<string, string>): Parsed {
    Parsed(ApplyRequestLine(FirstLine(lines), f), RawRequest(FirstLine(lines)),
           ScanHeaders(LaterLines(lines), acc))
  }

  // ---------------------------------------------------------------------------
  // The request line
  // ---------------------------------------------------------------------------

  /** `raw_request.split()` reads the same words as the line itself: the
      line end `rstrip` removes is whitespace. */
  lemma WordsOfRaw(line: string)
    ensures Words(RawRequest(line)) == Words(line)
  {
    var r := RawRequest(line);
    var e := line[|r|..];
    assert line == r + e;
    assert AllSpace(e) by {
      forall k | 0 <= k < |e| ensures IsSpace(e[k]) {
        assert e[k] == line[|r| + k];
      }
    }
    WordsBeforeGap(r, e);
  }

  /** A request line of exactly three tokens sets method, target and
      protocol in that order, whatever whitespace surrounds and separates
      them and whatever line end follows. */
  lemma ThreeTokenLine(m: string, p: string, v: string, gaps: seq<string>, f: Fields)
    requires Token(m) && Token(p) && Token(v)
    requires Gaps([m, p, v], gaps)
    ensures ApplyRequestLine(Spaced([m, p, v], gaps), f) == Fields(m, p, v)
  {
    var ws := [m, p, v];
    var line := Spaced(ws, gaps);
    assert forall i :: 0 <= i < |ws| ==> Token(ws[i]);
    WordsOfSpaced(ws, gaps);
    WordsOfRaw(line);
    assert Words(RawRequest(line)) == ws;
  }

  /** A request line of exactly two tokens sets method and target and leaves
      the protocol as it was (`"HTTP/1.1"` after `__init__`), whatever
      whitespace surrounds and separates them. */
  lemma TwoTokenLine(m: string, p: string, gaps: seq<string>, f: Fields)
    requires Token(m) && Token(p)
    requires Gaps([m, p], gaps)
    ensures ApplyRequestLine(Spaced([m, p], gaps), f) == Fields(m, p, f.protocol)
  {
    var ws := [m, p];
    var line := Spaced(ws, gaps);
    assert forall i :: 0 <= i < |ws| ==> Token(ws[i]);
    WordsOfSpaced(ws, gaps);
    WordsOfRaw(line);
    assert Words(RawRequest(line)) == ws;
  }

  /** Any other token count leaves the fields as they were; from the initial
      fields the method stays empty. */
  lemma OtherTokenCount(line: string, f: Fields)
    requires |Words(RawRequest(line))| != 2 && |Words(RawRequest(line))| != 3
    ensures ApplyRequestLine(line, f) == f
    ensures ApplyRequestLine(line, InitialFields).methodName == ""
  {
  }

  /** The protocol after the request line is the one before it or a token. */
  lemma ProtocolKeptOrToken(line: string, f: Fields)
    ensures var g := ApplyRequestLine(line, f);
      g.protocol == f.protocol || Token(g.protocol)
  {
    var parts := Words(RawRequest(line));
    if |parts| == 3 {
      assert Token(parts[2]);
    }
  }

  // ---------------------------------------------------------------------------
  // Header lines
  // ---------------------------------------------------------------------------

  /** A line unpacks into `(name, value)` exactly when, line end removed, it
      is `name + ": " + value` with `": "` in neither part: a line without
      `": "` or with two of them is an unpacking error. */
  lemma {:induction false} SplitHeaderShape(line: string)
    ensures SplitHeader(line).Some? ==>
      var h := SplitHeader(line).value;
      RStripLineEnds(line) == h.0 + HeaderSep + h.1 && Free(h.0, HeaderSep) && Free(h.1, HeaderSep)
  {
    var parts := SplitOn(RStripLineEnds(line), HeaderSep);
    SplitOnParts(RStripLineEnds(line), HeaderSep);
    if |parts| == 2 {
      assert parts[1..] == [parts[1]];
    }
  }

  /** Conversely, `name: value` with its line end unpacks into name and value. */
  lemma HeaderLineSplits(name: string, value: string, eol: string)
    requires Free(name, HeaderSep) && Free(value, HeaderSep)
    requires value == [] || !IsLineEnd(value[|value| - 1])
    requires forall k :: 0 <= k < |eol| ==> IsLineEnd(eol[k])
    ensures SplitHeader(name + HeaderSep + value + eol) == Some((name, value))
  {
    var s := name + HeaderSep + value;
    assert s != [] && !IsLineEnd(s[|s| - 1]);
    RStripAppended(s, eol);
    var parts := [name, value];
    JoinTwo(name, value, HeaderSep);
    SplitOnJoinOn(parts, HeaderSep);
  }

  /** The map the loop builds agrees with the reference reading. */
  lemma {:induction false} HeaderMapStep(acc: map<string, string>, h: (string, string), ps: seq<(string, string)>)
    ensures HeaderMap(acc[h.0 := h.1], ps) == HeaderMap(acc, [h] + ps)
    decreases |ps|
  {
    if ps != [] {
      var q := [h] + ps;
      assert q[..|q| - 1] == [h] + ps[..|ps| - 1];
      HeaderMapStep(acc, h, ps[..|ps| - 1]);
    } else {
      assert ([h] + ps)[..0] == [];
    }
  }

  /** Header lines that all unpack, followed by a blank line or the end of
      input: the loop succeeds, builds the reference map, and leaves the
      lines after the blank one unread. */
  lemma {:induction false} ScanHeadersGood(pre: seq<string>, tail: seq<string>, acc: map<string, string>)
    requires GoodHeaders(pre)
    requires tail == [] || IsBlank(tail[0])
    ensures ScanHeaders(pre + tail, acc)
      == HeaderScan(HeaderMap(acc, Pairs(pre)), if tail == [] then [] else tail[1..], true)
    decreases |pre|
  {
    if pre == [] {
      assert pre + tail == tail;
    } else {
      var h := SplitHeader(pre[0]).value;
      assert (pre + tail)[0] == pre[0];
      assert (pre + tail)[1..] == pre[1..] + tail;
      ScanHeadersGood(pre[1..], tail, acc[h.0 := h.1]);
      HeaderMapStep(acc, h, Pairs(pre[1..]));
    }
  }

  /** Header lines that all unpack, then a line that does not: the loop
      fails, whatever follows. */
  lemma {:induction false} ScanHeadersBad(pre: seq<string>, bad: string, tail: seq<string>, acc: map<string, string>)
    requires GoodHeaders(pre)
    requires !IsBlank(bad) && SplitHeader(bad).None?
    ensures !ScanHeaders(pre + [bad] + tail, acc).ok
    decreases |pre|
  {
    if pre == [] {
      assert pre + [bad] + tail == [bad] + tail;
    } else {
      var h := SplitHeader(pre[0]).value;
      assert (pre + [bad] + tail)[0] == pre[0];
      assert (pre + [bad] + tail)[1..] == pre[1..] + [bad] + tail;
      ScanHeadersBad(pre[1..], bad, tail, acc[h.0 := h.1]);
    }
  }

  /** A request whose header lines all unpack, up to a blank line or the
      end of input, parses: the fields come from the request line. */
  lemma ParseGoodHeaders(requestLine: string, pre: seq<string>, tail: seq<string>)
    requires GoodHeaders(pre)
    requires tail == [] || IsBlank(tail[0])
    ensures var p := ParseLines([requestLine] + pre + tail, InitialFields, map[]);
      p.scan.ok && p.fields == ApplyRequestLine(requestLine, InitialFields)
  {
    var rest := pre + tail;
    var input := [requestLine] + pre + tail;
    assert input == [requestLine] + rest;
    assert input[1..] == rest;
    ScanHeadersGood(pre, tail, map[]);
  }

  /** A request with a header line that does not unpack fails to parse. */
  lemma ParseBadHeader(requestLine: string, pre: seq<string>, bad: string, tail: seq<string>)
    requires GoodHeaders(pre)
    requires !IsBlank(bad) && SplitHeader(bad).None?
    ensures !ParseLines([requestLine] + pre + [bad] + tail, InitialFields, map[]).scan.ok
  {
    var rest := pre + [bad] + tail;
    var input := [requestLine] + pre + [bad] + tail;
    assert input == [requestLine] + rest;
    assert input[1..] == rest;
    ScanHeadersBad(pre, bad, tail, map[]);
  }

  /** In the reference map the last pair for a name gives its value. */
  lemma {:induction false} LastHeaderWins(acc: map<string, string>, ps: seq<(string, string)>, i: nat)
    requires i < |ps|
    requires forall j :: i < j < |ps| ==> ps[j].0 != ps[i].0
    ensures ps[i].0 in HeaderMap(acc, ps) && HeaderMap(acc, ps)[ps[i].0] == ps[i].1
    decreases |ps|
  {
    if i < |ps| - 1 {
      LastHeaderWins(acc, ps[..|ps| - 1], i);
    }
  }

  /** A name no pair carries keeps the value it had before the block. */
  lemma {:induction false} UnnamedHeaderKept(acc: map<string, string>, ps: seq<(string, string)>, n: string)
    requires forall j :: 0 <= j < |ps| ==> ps[j].0 != n
    ensures n in HeaderMap(acc, ps) <==> n in acc
    ensures n in acc ==> HeaderMap(acc, ps)[n] == acc[n]
    decreases |ps|
  {
    if ps != [] {
      UnnamedHeaderKept(acc, ps[..|ps| - 1], n);
    }
  }
}
