/**
 * `OtusRequestHandler`: one handler object per connection.  `handle` parses
 * the request into the object's fields, dispatches on the method name, and
 * the response writers append the response to the output stream `wfile`.
 * File bytes are written as the characters with the same codes.
 */
module Httpd {
  import opened Wrappers
  import opened Strings
  import opened FileSystem
  import opened UrlPath
  import opened Wire
  import opened Content
  import opened Request

  /** The request handlers the class defines. */
  datatype Verb = GetVerb | HeadVerb

  /** `hasattr(self, self.method.lower())`, for the two request handlers. */
  function Dispatch(m: string): Option<Verb> {
    var l := Lower(m);
    if l == "get" then Some(GetVerb)
    else if l == "head" then Some(HeadVerb)
    else None
  }

  /** Bytes as the characters with the same codes. */
  function ByteChars(bs: seq<bv8>): (r: string)
    ensures |r| == |bs|
    ensures forall i :: 0 <= i < |bs| ==> r[i] as int == bs[i] as int
  {
    seq(|bs|, i requires 0 <= i < |bs| => bs[i] as int as char)
  }

  /** The head written for a reply: `send_error` for a refusal,
      `send_headers` with 200 and the content length for a served file. */
  function ReplyHead(protocol: string, r: Reply): string {
    match r
    case Refused(st) => ErrorHead(protocol, st.code, st.reason)
    case Served(ctype, content) => SuccessHead(protocol, OK.code, OK.reason, |content|, ctype)
  }

  /** The bytes `get` writes after the head. */
  function ReplyBody(r: Reply): string {
    match r
    case Refused(_) => ""
    case Served(_, content) => ByteChars(content)
  }

  /** The value `process_get_and_head` returns: the content, or `None` after
      an error head. */
  function ReplyContent(r: Reply): Option<seq<bv8>> {
    match r
    case Refused(_) => None
    case Served(_, content) => Some(content)
  }

  /** A reply's head, followed by its body when `withBody` holds. */
  function HeadThenBody(protocol: string, r: Reply, withBody: bool): string {
    ReplyHead(protocol, r) + (if withBody then ReplyBody(r) else "")
  }

  /** What one dispatched request writes, given the parsed fields. */
  function Respond(f: Fields, root: string, fs: Tree, guess: Guess): string {
    var r := GetHeadReply(fs, guess, root, f.path);
    match Dispatch(f.methodName)
    case None => ErrorHead(f.protocol, METHOD_NOT_ALLOWED.code, METHOD_NOT_ALLOWED.reason)
    case Some(GetVerb) => ReplyHead(f.protocol, r) + ReplyBody(r)
    case Some(HeadVerb) => ReplyHead(f.protocol, r)
  }

  /** The outcome of one connection: whether parsing completed, and the
      bytes written. */
  datatype Outcome = Outcome(parsed: bool, output: string)

  /** One connection served by a fresh handler: parse, then respond; a header
      line that cannot be unpacked ends the connection with nothing written. */
  function Exchange(root: string, fs: Tree, guess: Guess, input: seq<string>): Outcome {
    var p := ParseLines(input, InitialFields, map[]);
    if p.scan.ok then Outcome(true, Respond(p.fields, root, fs, guess))
    else Outcome(false, "")
  }

  class OtusRequestHandler {
    const documentRoot: string
    const fs: Tree       // what the operating system shows under every path
    const guess: Guess   // mimetypes.guess_type
    var rfile: seq<string>   // lines not yet read
    var wfile: string        // everything written so far
    var methodName: string   // self.method
    var path: string
    var protocol: string
    var headers: map<string, string>
    var rawRequest: string

    /** `__init__`: the default fields, before any request is read. */
    constructor (documentRoot: string, fs: Tree, guess: Guess, input: seq<string>)
      ensures this.documentRoot == documentRoot && this.fs == fs && this.guess == guess
      ensures methodName == "" && path == "" && protocol == "HTTP/1.1" && headers == map[]
      ensures rfile == input && wfile == ""
    {
      this.documentRoot := documentRoot;
      this.fs := fs;
      this.guess := guess;
      methodName := "";
      protocol := "HTTP/1.1";
      path := "";
      headers := map[];
      rfile := input;
      wfile := "";
      rawRequest := "";
    }

    /** `rfile.readline()`: the next line, `""` at end of input. */
    method ReadLine() returns (line: string)
      modifies this`rfile
      ensures line == FirstLine(old(rfile)) && rfile == LaterLines(old(rfile))
    {
      if rfile == [] {
        line := "";
      } else {
        line := rfile[0];
        rfile := rfile[1..];
      }
    }

    /** `parse_request`.  Returns `false` where the source raises on a header
        line that does not unpack; the lines read so far stay consumed and
        the headers read so far stay set. */
    method ParseRequest() returns (ok: bool)
      modifies this`rfile, this`methodName, this`path, this`protocol, this`headers, this`rawRequest
      ensures var p := ParseLines(old(rfile), Fields(old(methodName), old(path), old(protocol)), old(headers));
        && Fields(methodName, path, protocol) == p.fields
        && rawRequest == p.raw
        && headers == p.scan.headers
        && rfile == p.scan.rest
        && ok == p.scan.ok
    {
      ReadRequestLine();
      ok := ReadHeaders();
    }

    /** The request-line half of `parse_request`. */
    method ReadRequestLine()
      modifies this`rfile, this`methodName, this`path, this`protocol, this`rawRequest
      ensures var line := FirstLine(old(rfile));
        && Fields(methodName, path, protocol) == ApplyRequestLine(line, Fields(old(methodName), old(path), old(protocol)))
        && rawRequest == RawRequest(line)
        && rfile == LaterLines(old(rfile))
    {
      var requestLine := ReadLine();
      rawRequest := RawRequest(requestLine);
      var parts := Words(rawRequest);
      if |parts| == 3 {
        methodName, path, protocol := parts[0], parts[1], parts[2];
      } else if |parts| == 2 {
        methodName, path := parts[0], parts[1];
      }
    }

    /** The header loop of `parse_request`. */
    method ReadHeaders() returns (ok: bool)
      modifies this`rfile, this`headers
      ensures var s := ScanHeaders(old(rfile), old(headers));
        headers == s.headers && rfile == s.rest && ok == s.ok
    {
      ghost var target := ScanHeaders(rfile, headers);
      while true
        invariant ScanHeaders(rfile, headers) == target
        decreases |rfile|
      {
        ghost var before := rfile;
        var line := ReadLine();
        if IsBlank(line) {
          return true;
        }
        var header := SplitHeader(line);
        if header.None? {
          assert ScanHeaders(before, headers) == HeaderScan(headers, rfile, false);
          return false;
        }
        headers := headers[header.value.0 := header.value.1];
      }
    }

    /** `send_response_header`: the status line, echoing the parsed protocol. */
    method SendResponseHeader(code: nat, msg: string)
      modifies this`wfile
      ensures wfile == old(wfile) + StatusLine(protocol, code, msg)
    {
      wfile := wfile + StatusLine(protocol, code, msg);
    }

    /** `send_header`. */
    method SendHeader(key: string, value: string)
      modifies this`wfile
      ensures wfile == old(wfile) + HeaderLine(key, value)
    {
      wfile := wfile + HeaderLine(key, value);
    }

    /** `end_headers`. */
    method EndHeaders()
      modifies this`wfile
      ensures wfile == old(wfile) + CRLF
    {
      wfile := wfile + CRLF;
    }

    /** `send_headers`: the success head, the content length in decimal. */
    method SendHeaders(code: nat, status: string, contentLength: nat, ctype: string)
      modifies this`wfile
      ensures wfile == old(wfile) + SuccessHead(protocol, code, status, contentLength, ctype)
    {
      ghost var w0 := wfile;
      ghost var sl, h1, h2 := StatusLine(protocol, code, status), HeaderLine("Server", ServerVersion), HeaderLine("Content-Type", ctype);
      ghost var h3, h4 := HeaderLine("Content-Length", Decimal.DecimalDigits(contentLength)), HeaderLine("Connection", "close");
      SendResponseHeader(code, status);
      SendHeader("Server", ServerVersion);
      ConcatAssoc(w0, sl, h1);
      SendHeader("Content-Type", ctype);
      ConcatAssoc(w0, sl + h1, h2);
      SendHeader("Content-Length", Decimal.DecimalDigits(contentLength));
      ConcatAssoc(w0, sl + h1 + h2, h3);
      SendHeader("Connection", "close");
      ConcatAssoc(w0, sl + h1 + h2 + h3, h4);
      EndHeaders();
      ConcatAssoc(w0, sl + h1 + h2 + h3 + h4, CRLF);
    }

    /** `send_error`: the error head. */
    method SendError(code: nat, status: string)
      modifies this`wfile
      ensures wfile == old(wfile) + ErrorHead(protocol, code, status)
    {
      ghost var w0 := wfile;
      ghost var sl, h1, h2 := StatusLine(protocol, code, status), HeaderLine("Server", ServerVersion), HeaderLine("Connection", "close");
      SendResponseHeader(code, status);
      SendHeader("Server", ServerVersion);
      ConcatAssoc(w0, sl, h1);
      SendHeader("Connection", "close");
      ConcatAssoc(w0, sl + h1, h2);
      EndHeaders();
      ConcatAssoc(w0, sl + h1 + h2, CRLF);
    }

    /** `retrieve_file`. */
    method RetrieveFile(filePath: string) returns (content: Option<seq<bv8>>)
      modifies this`wfile
      ensures wfile == old(wfile) + ReplyHead(protocol, RetrieveReply(fs, guess, filePath))
      ensures content == ReplyContent(RetrieveReply(fs, guess, filePath))
    {
      if !Opens(fs, filePath) {
        SendError(NOT_FOUND.code, NOT_FOUND.reason);
        return None;
      }
      var fileMimeType := guess(filePath);
      if fileMimeType.None? {
        fileMimeType := Some(DefaultType);
      }
      var fileContent := fs[filePath].content;
      SendHeaders(OK.code, OK.reason, |fileContent|, fileMimeType.value);
      return Some(fileContent);
    }

    /** `list_directory`. */
    method ListDirectory(dirPath: string) returns (content: Option<seq<bv8>>)
      modifies this`wfile
      ensures wfile == old(wfile) + ReplyHead(protocol, ListingReply(fs, guess, dirPath))
      ensures content == ReplyContent(ListingReply(fs, guess, dirPath))
    {
      if !(IsDir(fs, dirPath) && fs[dirPath].listing.Some?) {
        SendError(NOT_FOUND.code, NOT_FOUND.reason);
        return None;
      }
      var dirList := fs[dirPath].listing.value;
      if IndexName in dirList {
        var fullIndexPath := JoinPath(dirPath, IndexName);
        content := RetrieveFile(fullIndexPath);
      } else {
        SendError(NOT_FOUND.code, NOT_FOUND.reason);
        content := None;
      }
    }

    /** `process_get_and_head`. */
    method ProcessGetAndHead() returns (content: Option<seq<bv8>>)
      modifies this`wfile
      ensures wfile == old(wfile) + ReplyHead(protocol, GetHeadReply(fs, guess, documentRoot, path))
      ensures content == ReplyContent(GetHeadReply(fs, guess, documentRoot, path))
    {
      ghost var r := GetHeadReply(fs, guess, documentRoot, path);
      var convertedPath := SafeConvertPath(fs, documentRoot, path);
      if convertedPath.None? {
        assert r == Refused(NOT_FOUND);
        SendError(NOT_FOUND.code, NOT_FOUND.reason);
        return None;
      } else if IsDir(fs, convertedPath.value) {
        assert r == ListingReply(fs, guess, convertedPath.value);
        content := ListDirectory(convertedPath.value);
      } else if IsFile(fs, convertedPath.value) {
        assert r == RetrieveReply(fs, guess, convertedPath.value);
        content := RetrieveFile(convertedPath.value);
      } else {
        assert r == Refused(FORBIDDEN);
        SendError(FORBIDDEN.code, FORBIDDEN.reason);
        return None;
      }
    }

    /** `get`: the head, then the content as the body. */
    method Get()
      modifies this`wfile
      ensures var r := GetHeadReply(fs, guess, documentRoot, path);
        wfile == old(wfile) + ReplyHead(protocol, r) + ReplyBody(r)
    {
      ghost var r := GetHeadReply(fs, guess, documentRoot, path);
      ghost var w := wfile + ReplyHead(protocol, r);
      var contentBytes := ProcessGetAndHead();
      assert wfile == w;
      if contentBytes.Some? {
        assert ReplyBody(r) == ByteChars(contentBytes.value);
        wfile := wfile + ByteChars(contentBytes.value);
      } else {
        assert ReplyBody(r) == "";
        assert wfile == w + "";
      }
    }

    /** `head`: the head only. */
    method Head()
      modifies this`wfile
      ensures wfile == old(wfile) + ReplyHead(protocol, GetHeadReply(fs, guess, documentRoot, path))
    {
      var _ := ProcessGetAndHead();
    }

    /** `handle`: parse, then run `get` or `head`, or answer 405.  Returns
        `false`, having written nothing, where parsing raises. */
    method Handle() returns (parsed: bool)
      modifies this`rfile, this`wfile, this`methodName, this`path, this`protocol, this`headers, this`rawRequest
      ensures var p := ParseLines(old(rfile), Fields(old(methodName), old(path), old(protocol)), old(headers));
        && parsed == p.scan.ok
        && wfile == old(wfile) + (if parsed then Respond(p.fields, documentRoot, fs, guess) else "")
        && Fields(methodName, path, protocol) == p.fields && rawRequest == p.raw
        && headers == p.scan.headers && rfile == p.scan.rest
    {
      parsed := ParseRequest();
      if !parsed {
        return;
      }
      ghost var written := wfile;
      ghost var f := Fields(methodName, path, protocol);
      ghost var r := GetHeadReply(fs, guess, documentRoot, path);
      match Dispatch(methodName)
      case Some(GetVerb) =>
        Get();
        assert Respond(f, documentRoot, fs, guess) == ReplyHead(protocol, r) + ReplyBody(r);
        ConcatAssoc(written, ReplyHead(protocol, r), ReplyBody(r));
      case Some(HeadVerb) =>
        Head();
        assert Respond(f, documentRoot, fs, guess) == ReplyHead(protocol, r);
      case None =>
        SendError(METHOD_NOT_ALLOWED.code, METHOD_NOT_ALLOWED.reason);
        assert Respond(f, documentRoot, fs, guess)
          == ErrorHead(protocol, METHOD_NOT_ALLOWED.code, METHOD_NOT_ALLOWED.reason);
    }
  }

  /** One connection: a fresh handler reads `input` and handles it. */
  method ServeConnection(root: string, fs: Tree, guess: Guess, input: seq<string>)
    returns (parsed: bool, output: string)
    ensures Outcome(parsed, output) == Exchange(root, fs, guess, input)
  {
    var handler := new OtusRequestHandler(root, fs, guess, input);
    parsed := handler.Handle();
    output := handler.wfile;
  }

  // ---------------------------------------------------------------------------
  // Properties of one exchange
  // ---------------------------------------------------------------------------

  /** Dispatch ignores case: exactly the spellings of `get` run `get`, and
      exactly the spellings of `head` run `head`. */
  lemma DispatchIgnoresCase(m: string, n: string)
    requires Lower(m) == Lower(n)
    ensures Dispatch(m) == Dispatch(n)
    ensures Dispatch(m) == Some(GetVerb) <==> Lower(m) == "get"
    ensures Dispatch(m) == Some(HeadVerb) <==> Lower(m) == "head"
  {
  }

  /** `GET`, `get` and `Get` all run `get`; `HEAD` and `head` run `head`;
      the empty method and `POST` run neither. */
  lemma DispatchSpellings()
    ensures Dispatch("GET") == Dispatch("get") == Dispatch("Get") == Some(GetVerb)
    ensures Dispatch("HEAD") == Dispatch("head") == Some(HeadVerb)
    ensures Dispatch("") == None && Dispatch("POST") == None
  {
    assert Lower("GET") == "get";
    assert Lower("Get") == "get";
    assert Lower("get") == "get";
    assert Lower("HEAD") == "head";
    assert Lower("head") == "head";
    assert Lower("POST") == "post";
  }

  /** GET and HEAD for the same target and protocol write the same head;
      GET then writes the content, which is empty exactly when nothing is
      served or the file is empty. */
  lemma GetIsHeadPlusBody(f: Fields, g: Fields, root: string, fs: Tree, guess: Guess)
    requires Dispatch(f.methodName) == Some(GetVerb) && Dispatch(g.methodName) == Some(HeadVerb)
    requires f.path == g.path && f.protocol == g.protocol
    ensures var r := GetHeadReply(fs, guess, root, f.path);
      && Respond(f, root, fs, guess) == Respond(g, root, fs, guess) + ReplyBody(r)
      && (ReplyBody(r) == "" <==> r.Refused? || r.content == [])
  {
  }

  /** A method name that dispatches nowhere is answered with 405 and
      nothing else. */
  lemma UnknownMethodRefused(f: Fields, root: string, fs: Tree, guess: Guess)
    requires Dispatch(f.methodName) == None
    ensures Respond(f, root, fs, guess) == ErrorHead(f.protocol, 405, "Method Not Allowed")
  {
  }

  /** The header lines never change the response: whatever the headers, a
      request whose header block unpacks is answered from the request line
      alone. */
  lemma {:induction false} GoodHeadersRespond(root: string, fs: Tree, guess: Guess,
                                             requestLine: string, pre: seq<string>, tail: seq<string>)
    requires GoodHeaders(pre)
    requires tail == [] || IsBlank(tail[0])
    ensures Exchange(root, fs, guess, [requestLine] + pre + tail)
      == Outcome(true, Respond(ApplyRequestLine(requestLine, InitialFields), root, fs, guess))
  {
    ParseGoodHeaders(requestLine, pre, tail);
  }

  /** A request line that is not two or three tokens leaves the method
      empty, so a request whose headers unpack is answered 405 with the
      default protocol, never 400. */
  lemma MalformedRequestLine(root: string, fs: Tree, guess: Guess,
                             requestLine: string, pre: seq<string>, tail: seq<string>)
    requires |Words(RawRequest(requestLine))| != 2 && |Words(RawRequest(requestLine))| != 3
    requires GoodHeaders(pre)
    requires tail == [] || IsBlank(tail[0])
    ensures Exchange(root, fs, guess, [requestLine] + pre + tail)
      == Outcome(true, ErrorHead("HTTP/1.1", 405, "Method Not Allowed"))
  {
    GoodHeadersRespond(root, fs, guess, requestLine, pre, tail);
    OtherTokenCount(requestLine, InitialFields);
    assert Dispatch(InitialFields.methodName) == None by {
      assert Lower("") == "";
    }
    UnknownMethodRefused(InitialFields, root, fs, guess);
  }

  /** A header line that does not unpack ends the exchange with nothing
      written, whatever the request line and whatever follows. */
  lemma {:induction false} BadHeaderWritesNothing(root: string, fs: Tree, guess: Guess,
                                                  requestLine: string, pre: seq<string>, bad: string, tail: seq<string>)
    requires GoodHeaders(pre)
    requires !IsBlank(bad) && SplitHeader(bad).None?
    ensures Exchange(root, fs, guess, [requestLine] + pre + [bad] + tail) == Outcome(false, "")
  {
    ParseBadHeader(requestLine, pre, bad, tail);
  }

  /** A token holds no line break: `\r` and `\n` are whitespace. */
  lemma TokenOneLine(w: string)
    requires Token(w)
    ensures NoLineBreak(w)
  {
    forall k | 0 <= k < |w| ensures w[k] != '\r' && w[k] != '\n' {
      assert !IsSpace(w[k]);
    }
  }

  lemma InitialProtocolOneLine()
    ensures NoLineBreak(InitialFields.protocol)
  {
  }

  /** The protocol a request line leaves has no line break, so the status
      line it is echoed into is one line. */
  lemma ParsedProtocolOneLine(line: string)
    ensures NoLineBreak(ApplyRequestLine(line, InitialFields).protocol)
  {
    var p := ApplyRequestLine(line, InitialFields).protocol;
    ProtocolKeptOrToken(line, InitialFields);
    if p == InitialFields.protocol {
      InitialProtocolOneLine();
    } else {
      TokenOneLine(p);
    }
  }

  /** Split at CRLF, the head of a reply is one status line, the headers
      `send_error` or `send_headers` writes in their fixed order, and the
      blank line: an error head carries no `Content-Type` and no
      `Content-Length`, a success head carries the content's length. */
  lemma ReplyHeadLines(protocol: string, r: Reply)
    requires NoLineBreak(protocol)
    requires r.Refused? ==> NoLineBreak(r.status.reason)
    requires r.Served? ==> NoLineBreak(r.ctype)
    ensures r.Refused? ==>
              SplitOn(ReplyHead(protocol, r), CRLF)
                == [StatusText(protocol, r.status.code, r.status.reason), HeaderText("Server", ServerVersion),
                    HeaderText("Connection", "close"), "", ""]
    ensures r.Served? ==>
              SplitOn(ReplyHead(protocol, r), CRLF)
                == [StatusText(protocol, 200, "OK"), HeaderText("Server", ServerVersion),
                    HeaderText("Content-Type", r.ctype), HeaderText("Content-Length", Decimal.DecimalDigits(|r.content|)),
                    HeaderText("Connection", "close"), "", ""]
  {
    match r
    case Refused(st) => ErrorHeadLines(protocol, st.code, st.reason);
    case Served(ctype, content) =>
      FixedTextsOneLine();
      SuccessHeadLines(protocol, OK.code, OK.reason, |content|, ctype);
  }

  /** Processing one request writes nothing (when parsing raises) or exactly
      one head, a single status line and its headers, optionally followed by
      the body of the same reply. */
  lemma OneResponsePerRequest(root: string, fs: Tree, guess: Guess, input: seq<string>)
    ensures var o, f := Exchange(root, fs, guess, input), ParseLines(input, InitialFields, map[]).fields;
      && (!o.parsed ==> o.output == "")
      && (o.parsed ==> exists r: Reply, withBody: bool :: o.output == HeadThenBody(f.protocol, r, withBody))
  {
    var p := ParseLines(input, InitialFields, map[]);
    if p.scan.ok {
      RespondIsOneHead(p.fields, root, fs, guess);
    }
  }

  /** Whatever the method, the response is one reply's head, optionally
      followed by that reply's body. */
  lemma RespondIsOneHead(f: Fields, root: string, fs: Tree, guess: Guess)
    ensures exists r: Reply, withBody: bool :: Respond(f, root, fs, guess) == HeadThenBody(f.protocol, r, withBody)
  {
    var r := GetHeadReply(fs, guess, root, f.path);
    match Dispatch(f.methodName)
    case None =>
      var e := Refused(METHOD_NOT_ALLOWED);
      assert Respond(f, root, fs, guess) == ReplyHead(f.protocol, e) + "";
      assert Respond(f, root, fs, guess) == HeadThenBody(f.protocol, e, false);
    case Some(GetVerb) =>
      assert Respond(f, root, fs, guess) == HeadThenBody(f.protocol, r, true);
    case Some(HeadVerb) =>
      assert Respond(f, root, fs, guess) == ReplyHead(f.protocol, r) + "";
      assert Respond(f, root, fs, guess) == HeadThenBody(f.protocol, r, false);
  }

  /** `get` on a readable regular file writes the success head with the
      file's length and guessed type, then the file's bytes. */
  lemma GetFileResponds(f: Fields, root: string, fs: Tree, guess: Guess)
    requires Dispatch(f.methodName) == Some(GetVerb)
    requires Opens(fs, SafeResolve(root, f.path))
    ensures var full := SafeResolve(root, f.path);
      Respond(f, root, fs, guess)
        == SuccessHead(f.protocol, 200, "OK", |fs[full].content|, ContentType(guess, full))
           + ByteChars(fs[full].content)
  {
    var full := SafeResolve(root, f.path);
    var r := GetHeadReply(fs, guess, root, f.path);
    assert r == Served(ContentType(guess, full), fs[full].content);
  }

  /** End to end: `GET <target> <version>` in any whitespace layout, the
      target beginning with `/`,
      for a readable regular file at the path `convert_path` computes,
      followed by header lines that unpack and a blank line, is answered
      200 with the file's length, its guessed type, and its bytes. */
  lemma GetReadableFile(root: string, fs: Tree, guess: Guess,
                        m: string, target: string, version: string, gaps: seq<string>,
                        pre: seq<string>, tail: seq<string>)
    requires Token(m) && Token(target) && Token(version) && Lower(m) == "get"
    requires Gaps([m, target, version], gaps)
    requires GoodHeaders(pre) && (tail == [] || IsBlank(tail[0]))
    requires target[0] == '/' && Opens(fs, Resolve(root, target))
    ensures var full := Resolve(root, target);
      Exchange(root, fs, guess, [Spaced([m, target, version], gaps)] + pre + tail)
        == Outcome(true, SuccessHead(version, 200, "OK", |fs[full].content|, ContentType(guess, full))
                         + ByteChars(fs[full].content))
  {
    var line := Spaced([m, target, version], gaps);
    ThreeTokenLine(m, target, version, gaps, InitialFields);
    SafeConvertPathAgrees(fs, root, target);
    GoodHeadersRespond(root, fs, guess, line, pre, tail);
    GetFileResponds(Fields(m, target, version), root, fs, guess);
  }
}
