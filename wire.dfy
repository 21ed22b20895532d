/**
 * The `HttpCode` table and the text the response writers put on the wire:
 * `send_response_header`, `send_header`, `end_headers`, and the two header
 * blocks built from them, `send_headers` and `send_error`.
 */
module Wire {
  import opened Strings
  import opened Decimal

  /** A status code with its reason phrase. */
  datatype Status = Status(code: nat, reason: string)

  // The `HttpCode` table.
  const OK := Status(200, "OK")
  const FORBIDDEN := Status(403, "Forbidden")
  const NOT_FOUND := Status(404, "Not Found")
  const METHOD_NOT_ALLOWED := Status(405, "Method Not Allowed")

  /** `OtusRequestHandler.server_version`, sent as the `Server` header. */
  const ServerVersion := "OTUS server/0.1"

  const CRLF := "\r\n"

  /** The status line without its line end. */
  function StatusText(protocol: string, code: nat, msg: string): string {
    protocol + " " + DecimalDigits(code) + " " + msg
  }

  /** `"{protocol} {code} {msg}\r\n"`. */
  function StatusLine(protocol: string, code: nat, msg: string): string {
    StatusText(protocol, code, msg) + CRLF
  }

  /** A header line without its line end. */
  function HeaderText(key: string, value: string): string {
    key + ": " + value
  }

  /** `"{}: {}\r\n".format(key, value)`. */
  function HeaderLine(key: string, value: string): string {
    HeaderText(key, value) + CRLF
  }

  /** The head `send_error` writes: status line, `Server`, `Connection: close`,
      blank line; no `Content-Type` and no `Content-Length`. */
  function ErrorHead(protocol: string, code: nat, msg: string): string {
    StatusLine(protocol, code, msg)
      + HeaderLine("Server", ServerVersion)
      + HeaderLine("Connection", "close")
      + CRLF
  }

  /** The head `send_headers` writes: status line, then `Server`,
      `Content-Type`, `Content-Length`, `Connection: close`, blank line. */
  function SuccessHead(protocol: string, code: nat, msg: string, length: nat, ctype: string): string {
    StatusLine(protocol, code, msg)
      + HeaderLine("Server", ServerVersion)
      + HeaderLine("Content-Type", ctype)
      + HeaderLine("Content-Length", DecimalDigits(length))
      + HeaderLine("Connection", "close")
      + CRLF
  }

  /** Text that cannot end a line early. */
  predicate NoLineBreak(s: string) {
    forall k :: 0 <= k < |s| ==> s[k] != '\r' && s[k] != '\n'
  }

  lemma NoLineBreakConcat(a: string, b: string)
    requires NoLineBreak(a) && NoLineBreak(b)
    ensures NoLineBreak(a + b)
  {
  }

  lemma StatusTextNoLineBreak(protocol: string, code: nat, msg: string)
    requires NoLineBreak(protocol) && NoLineBreak(msg)
    ensures NoLineBreak(StatusText(protocol, code, msg))
  {
    var d := DecimalDigits(code);
    assert NoLineBreak(d);
  }

  lemma HeaderTextOneLine(key: string, value: string)
    requires NoLineBreak(key) && NoLineBreak(value)
    ensures NoLineBreak(HeaderText(key, value))
  {
    assert NoLineBreak(": ");
    NoLineBreakConcat(key, ": ");
    NoLineBreakConcat(key + ": ", value);
  }

  /** The fixed texts of the heads hold no line break. */
  lemma FixedTextsOneLine()
    ensures NoLineBreak(HeaderText("Server", ServerVersion)) && NoLineBreak(HeaderText("Connection", "close"))
    ensures NoLineBreak(OK.reason)
  {
    assert NoLineBreak("Server") && NoLineBreak(ServerVersion);
    HeaderTextOneLine("Server", ServerVersion);
    assert NoLineBreak("Connection") && NoLineBreak("close");
    HeaderTextOneLine("Connection", "close");
    assert NoLineBreak(OK.reason);
  }

  lemma ContentKeysOneLine()
    ensures NoLineBreak("Content-Type") && NoLineBreak("Content-Length")
  {
  }

  /** Two empty lines more, joined with CRLF, add two CRLFs at the end. */
  lemma {:induction false} LinesJoined(lines: seq<string>)
    requires |lines| >= 1
    ensures JoinOn(lines + ["", ""], CRLF) == JoinOn(lines, CRLF) + CRLF + CRLF
    decreases |lines|
  {
    var x, rest := lines[0], lines[1..];
    assert lines + ["", ""] == [x] + (rest + ["", ""]);
    JoinOnCons(x, rest + ["", ""], CRLF);
    if rest == [] {
      assert rest + ["", ""] == [""] + [""];
      JoinOnCons("", [""], CRLF);
      assert JoinOn(rest + ["", ""], CRLF) == CRLF;
      assert JoinOn(lines, CRLF) == x;
    } else {
      LinesJoined(rest);
      assert lines == [x] + rest;
      JoinOnCons(x, rest, CRLF);
      calc {
        JoinOn(lines + ["", ""], CRLF);
        x + CRLF + JoinOn(rest + ["", ""], CRLF);
        x + CRLF + (JoinOn(rest, CRLF) + CRLF + CRLF);
        { ConcatAssoc(x + CRLF, JoinOn(rest, CRLF), CRLF + CRLF);
          ConcatAssoc(JoinOn(rest, CRLF), CRLF, CRLF); }
        x + CRLF + JoinOn(rest, CRLF) + (CRLF + CRLF);
        { ConcatAssoc(x + CRLF + JoinOn(rest, CRLF), CRLF, CRLF); }
        JoinOn(lines, CRLF) + CRLF + CRLF;
      }
    }
  }

  /** Splitting CRLF-joined lines, none holding a line break, gives them back. */
  lemma SplitLines(lines: seq<string>)
    requires |lines| >= 1
    requires forall i :: 0 <= i < |lines| ==> NoLineBreak(lines[i])
    ensures SplitOn(JoinOn(lines + ["", ""], CRLF), CRLF) == lines + ["", ""]
  {
    var all := lines + ["", ""];
    forall i | 0 <= i < |all| ensures Free(all[i], CRLF) {
      FreeOfChar(all[i], CRLF);
    }
    SplitOnJoinOn(all, CRLF);
  }

  /** The lines of an error head, without their line ends. */
  function ErrorLines(protocol: string, code: nat, msg: string): seq<string> {
    [StatusText(protocol, code, msg), HeaderText("Server", ServerVersion), HeaderText("Connection", "close")]
  }

  lemma ErrorHeadJoined(protocol: string, code: nat, msg: string)
    ensures ErrorHead(protocol, code, msg) == JoinOn(ErrorLines(protocol, code, msg) + ["", ""], CRLF)
  {
    var lines := ErrorLines(protocol, code, msg);
    var a, b, c := lines[0], lines[1], lines[2];
    LinesJoined(lines);
    JoinThree(a, b, c, CRLF);
    ConcatAssoc(a + CRLF, b, CRLF);
    ConcatAssoc(a + CRLF + b + CRLF, c, CRLF);
  }

  lemma ErrorLinesNoLineBreak(protocol: string, code: nat, msg: string)
    requires NoLineBreak(protocol) && NoLineBreak(msg)
    ensures forall i :: 0 <= i < 3 ==> NoLineBreak(ErrorLines(protocol, code, msg)[i])
  {
    StatusTextNoLineBreak(protocol, code, msg);
    FixedTextsOneLine();
  }

  /** A client that splits an error head at CRLF finds the status line, the
      `Server` header, `Connection: close`, and the blank line ending the
      head: exactly one status line and no content headers. */
  lemma ErrorHeadLines(protocol: string, code: nat, msg: string)
    requires NoLineBreak(protocol) && NoLineBreak(msg)
    ensures SplitOn(ErrorHead(protocol, code, msg), CRLF)
      == [StatusText(protocol, code, msg), HeaderText("Server", ServerVersion),
          HeaderText("Connection", "close"), "", ""]
  {
    ErrorLinesNoLineBreak(protocol, code, msg);
    ErrorHeadJoined(protocol, code, msg);
    SplitLines(ErrorLines(protocol, code, msg));
  }

  /** The five lines of a success head, joined by CRLF. */
  lemma JoinFive(a: string, b: string, c: string, d: string, e: string)
    ensures JoinOn([a, b, c, d, e], CRLF) == a + CRLF + b + CRLF + c + CRLF + d + CRLF + e
  {
    assert [a, b, c, d, e] == [a] + [b, c, d, e];
    assert [b, c, d, e] == [b] + [c, d, e];
    JoinOnCons(a, [b, c, d, e], CRLF);
    JoinOnCons(b, [c, d, e], CRLF);
    JoinThree(c, d, e, CRLF);
  }

  /** The lines of a success head, without their line ends. */
  function SuccessLines(protocol: string, code: nat, msg: string, length: nat, ctype: string): seq<string> {
    [StatusText(protocol, code, msg), HeaderText("Server", ServerVersion), HeaderText("Content-Type", ctype),
     HeaderText("Content-Length", DecimalDigits(length)), HeaderText("Connection", "close")]
  }

  lemma SuccessHeadJoined(protocol: string, code: nat, msg: string, length: nat, ctype: string)
    ensures SuccessHead(protocol, code, msg, length, ctype)
      == JoinOn(SuccessLines(protocol, code, msg, length, ctype) + ["", ""], CRLF)
  {
    var lines := SuccessLines(protocol, code, msg, length, ctype);
    var a, b, c, d, e := lines[0], lines[1], lines[2], lines[3], lines[4];
    LinesJoined(lines);
    JoinFive(a, b, c, d, e);
    ConcatAssoc(a + CRLF, b, CRLF);
    ConcatAssoc(a + CRLF + b + CRLF, c, CRLF);
    ConcatAssoc(a + CRLF + b + CRLF + c + CRLF, d, CRLF);
    ConcatAssoc(a + CRLF + b + CRLF + c + CRLF + d + CRLF, e, CRLF);
  }

  lemma SuccessLinesNoLineBreak(protocol: string, code: nat, msg: string, length: nat, ctype: string)
    requires NoLineBreak(protocol) && NoLineBreak(msg) && NoLineBreak(ctype)
    ensures forall i :: 0 <= i < 5 ==> NoLineBreak(SuccessLines(protocol, code, msg, length, ctype)[i])
  {
    StatusTextNoLineBreak(protocol, code, msg);
    FixedTextsOneLine();
    ContentKeysOneLine();
    HeaderTextOneLine("Content-Type", ctype);
    assert NoLineBreak(DecimalDigits(length));
    HeaderTextOneLine("Content-Length", DecimalDigits(length));
  }

  /** A client that splits a success head at CRLF finds the status line and
      then `Server`, `Content-Type`, `Content-Length`, `Connection: close`
      in that order, and the blank line ending the head. */
  lemma SuccessHeadLines(protocol: string, code: nat, msg: string, length: nat, ctype: string)
    requires NoLineBreak(protocol) && NoLineBreak(msg) && NoLineBreak(ctype)
    ensures SplitOn(SuccessHead(protocol, code, msg, length, ctype), CRLF)
      == [StatusText(protocol, code, msg), HeaderText("Server", ServerVersion), HeaderText("Content-Type", ctype),
          HeaderText("Content-Length", DecimalDigits(length)), HeaderText("Connection", "close"), "", ""]
  {
    SuccessLinesNoLineBreak(protocol, code, msg, length, ctype);
    SuccessHeadJoined(protocol, code, msg, length, ctype);
    SplitLines(SuccessLines(protocol, code, msg, length, ctype));
  }
}
