# OTUS static file server: the request handler

This project models `OtusRequestHandler`, the per-connection request handler of the OTUS
static file server (`httpd.py`; `httpd_old.py` is the same file, line for line). It also
proves properties of that model.

One connection goes through these steps:

- `handle` calls `parse_request`.
- `parse_request` reads the request line and splits it on whitespace into method, target and
  protocol. It then reads `Name: Value` header lines until a blank line or the end of input.
- `handle` then dispatches on the lower-cased method name to `get` or `head`, or answers
  405 Method Not Allowed.
- Both `get` and `head` go through `process_get_and_head`:
  - `convert_path` turns the request target into a path under the document root. It drops
    the query, percent-decodes with `+` as space, applies POSIX `normpath`, strips `/` and
    joins the result to the root.
  - A missing path is 404 Not Found.
  - A directory is served through its `index.html` (`list_directory`).
  - A regular file is served by `retrieve_file`.
  - Anything else is 403 Forbidden.
- The response writers append the status line and headers to the output stream. `get` then
  appends the file's bytes.

The modules follow that structure:

| module | file | what it holds |
|---|---|---|
| `Wrappers` | `wrappers.dfy` | `Option` |
| `Strings` | `strings.dfy` | the Python `str` operations the handler uses: `split()`, `split(sep)`, `join`, `rstrip('\r\n')`, `strip('/')`, `lower()` |
| `Decimal` | `decimal.dfy` | the decimal rendering of `Content-Length` |
| `FileSystem` | `file_system.dfy` | the document tree as a map from path strings to directory, file or other node |
| `UrlPath` | `url_path.dfy` | `convert_path`: query removal, `unquote_plus`, `posixpath.normpath`, `strip`, `posixpath.join` |
| `Wire` | `wire.dfy` | the `HttpCode` table, `server_version`, the status line, header lines and the two response heads |
| `Content` | `content.dfy` | `process_get_and_head`, `list_directory`, `retrieve_file` as decisions returning a `Reply` |
| `Request` | `request.dfy` | `parse_request` as functions on the input lines: request line, header loop, header map |
| `Httpd` | `handler.dfy` | the class `OtusRequestHandler`, whose methods update its fields and append to `wfile`; `Exchange`, the whole connection as a function; and the properties of one exchange |

The input stream is the sequence of lines `readline()` returns, each with its line end. Only
the last element may be `""` or lack its `\n`. Once the sequence is used up, `readline()`
returns `""`, which is the end of input. The output stream `wfile` is a
string, and file bytes are written as the characters with the same codes. The file system is
a parameter (`Tree`), and so is `mimetypes.guess_type` (`Guess`).

## Model

| member | source | states |
|---|---|---|
| `Httpd.OtusRequestHandler.constructor` | httpd.py:27-33 | `__init__`: method `""`, path `""`, protocol `"HTTP/1.1"`, empty header map, nothing written |
| `Httpd.OtusRequestHandler.ReadLine` | httpd.py:58 | `readline()` returns the next line and consumes it, or returns `""` (a blank line) at the end of input |
| `Httpd.OtusRequestHandler.ParseRequest` | httpd.py:45-64 | the new method, path, protocol, `raw_request`, header map and unread lines are those of `Request.ParseLines`; the result is `false` exactly when a header line fails to unpack |
| `Httpd.OtusRequestHandler.ReadRequestLine` | httpd.py:46-54 | consumes exactly one line; `raw_request` is that line without its trailing `\r`/`\n`, and method, path and protocol are set from it as `Request.ApplyRequestLine` says (three tokens, two tokens, or no change) |
| `Httpd.OtusRequestHandler.ReadHeaders` | httpd.py:56-64 | the header loop ends with the header map, the unread lines and the success flag of the reference scan `Request.ScanHeaders` |
| `Httpd.OtusRequestHandler.SendResponseHeader` | httpd.py:82-92 | appends exactly `protocol + " " + code + " " + msg + "\r\n"`, echoing the parsed protocol |
| `Httpd.OtusRequestHandler.SendHeader` | httpd.py:102-104 | appends exactly `key + ": " + value + "\r\n"` |
| `Httpd.OtusRequestHandler.EndHeaders` | httpd.py:106-107 | appends `"\r\n"` |
| `Httpd.OtusRequestHandler.SendHeaders` | httpd.py:94-100 | appends the success head: status line, `Server`, `Content-Type`, `Content-Length` in decimal, `Connection: close`, blank line |
| `Httpd.OtusRequestHandler.SendError` | httpd.py:109-113 | appends the error head: status line, `Server`, `Connection: close`, blank line |
| `Httpd.OtusRequestHandler.RetrieveFile` | httpd.py:132-148 | writes the head of `Content.RetrieveReply` and returns its content, or `None` after a 404 |
| `Httpd.OtusRequestHandler.ListDirectory` | httpd.py:115-130 | writes the head of `Content.ListingReply` and returns its content, or `None` after a 404 |
| `Httpd.OtusRequestHandler.ProcessGetAndHead` | httpd.py:152-165 | writes the head of `Content.GetHeadReply` for the parsed target and returns its content, or `None` after an error head. The path it decides on is the corrected `UrlPath.SafeResolve`, which equals `convert_path`'s on targets beginning with `/` (see Left out) |
| `Httpd.OtusRequestHandler.Get` | httpd.py:167-172 | writes the head of `Content.GetHeadReply` (over `UrlPath.SafeResolve`), then that reply's content as the body |
| `Httpd.OtusRequestHandler.Head` | httpd.py:174-176 | writes the head of `Content.GetHeadReply` (over `UrlPath.SafeResolve`) only |
| `Httpd.OtusRequestHandler.Handle` | httpd.py:35-43 | parses the request: method, path, protocol, `raw_request`, header map and unread lines end as `Request.ParseLines` gives them. If parsing fails, nothing is written. Otherwise it appends `Respond` for the parsed fields: `get`, `head` (both over `UrlPath.SafeResolve`), or the 405 error head |
| `Httpd.ServeConnection` | httpd.py:35-43 | a fresh handler fed `input` writes exactly `Exchange(root, fs, guess, input).output` (whose replies resolve paths with `UrlPath.SafeResolve`) and reports whether parsing completed |
| `Httpd.Dispatch` | httpd.py:38-40 | defines the method lookup: `get` for a name that lower-cases to `get`, `head` for one that lower-cases to `head`, nothing for any other name |
| `Httpd.Respond` | httpd.py:38-43 | defines what `handle` writes after a parse that completes: the head and body of `Content.GetHeadReply` for `get`, its head alone for `head`, the 405 error head for any other method |
| `Httpd.Exchange` | httpd.py:35-43 | defines one connection as a value: `false` with nothing written when parsing raises, otherwise `true` with `Respond` for the parsed fields |
| `Httpd.DispatchIgnoresCase` | httpd.py:38-40 | methods equal up to case dispatch alike; `get` runs exactly when the lower-cased name is `"get"`, and `head` exactly when it is `"head"` |
| `Httpd.DispatchSpellings` | httpd.py:38-40 | `GET`, `get` and `Get` run `get`; `HEAD` and `head` run `head`; the empty method and `POST` run neither |
| `Httpd.UnknownMethodRefused` | httpd.py:41-43 | a method that dispatches nowhere is answered with exactly the 405 error head |
| `Httpd.GetIsHeadPlusBody` | httpd.py:167-176 | GET and HEAD for the same target write the same head; GET then adds the body, which is empty exactly when nothing is served or the file is empty |
| `Httpd.GoodHeadersRespond` | httpd.py:57-64 | when every header line unpacks and a blank line or the end of input follows, the exchange completes, and its output depends only on the request line |
| `Httpd.MalformedRequestLine` | httpd.py:49-54 | a request line that is neither 2 nor 3 tokens leaves the method empty, so the answer is 405 with protocol `HTTP/1.1` (never 400) |
| `Httpd.BadHeaderWritesNothing` | httpd.py:63 | a header line that does not unpack ends the exchange with nothing written, whatever comes before or after it |
| `Httpd.ParsedProtocolOneLine` | httpd.py:48-50 | the protocol a request line leaves holds no `\r` or `\n`, so the echoed status line is one line |
| `Httpd.ReplyHeadLines` | httpd.py:94-113 | split at CRLF, a reply's head is exactly one status line followed by the fixed header lines of `send_error` or `send_headers` and the blank line. `Content-Length` is the content's length |
| `Httpd.OneResponsePerRequest` | httpd.py:152-172 | one exchange writes nothing when parsing raises; otherwise it writes exactly one reply head, optionally followed by that reply's body |
| `Httpd.RespondIsOneHead` | httpd.py:38-43 | whatever the method, the answer to parsed fields is one reply's head, optionally followed by that reply's body |
| `Httpd.GetFileResponds` | httpd.py:132-148 | `get` on a readable regular file at `UrlPath.SafeResolve` of the path writes the 200 head with the file's byte length and guessed type (or `application/octet-stream`), then the file's bytes |
| `Httpd.GetReadableFile` | httpd.py:167-172 | end to end: `GET /target version`, in any whitespace layout, plus headers that unpack, for a readable file at the as-written `convert_path` result `UrlPath.Resolve`, is answered 200 with that file's length, type and bytes |
| `Request.ApplyRequestLine` | httpd.py:47-54 | defines the request-line step: the tokens of the line without its line end; three set method, path and protocol, two set method and path, any other count changes nothing |
| `Request.SplitHeader` | httpd.py:61-63 | defines the unpacking of one header line: the line without its line end, split on `": "`, gives a name and a value only when there are exactly two pieces |
| `Request.ScanHeaders` | httpd.py:57-64 | defines the header loop: stop with success at a blank line or the end of input, stop with failure at a line that does not unpack, otherwise set the name to the value and go on |
| `Request.ParseLines` | httpd.py:45-64 | defines all of `parse_request`: the request-line step on the first line, `raw_request`, and the header loop on the lines after it |
| `Request.ThreeTokenLine` | httpd.py:46-50 | a request line of three tokens sets method, path and protocol in that order, whatever whitespace comes before, between and after them, line end included |
| `Request.TwoTokenLine` | httpd.py:51-52 | a request line of two tokens, in any whitespace layout, sets method and path; the protocol keeps its value (`HTTP/1.1` after `__init__`) |
| `Request.WordsOfRaw` | httpd.py:47-48 | `raw_request.split()` gives the same tokens as splitting the whole line, line end included |
| `Request.OtherTokenCount` | httpd.py:53-54 | any other token count changes no field; after `__init__` the method stays `""` |
| `Request.ProtocolKeptOrToken` | httpd.py:48-52 | after the request line the protocol is the previous one or a whitespace-free token |
| `Request.ParseGoodHeaders` | httpd.py:45-64 | a request line followed by header lines that all unpack, then a blank line or the end of input, parses, and its fields come from the request line alone |
| `Request.ParseBadHeader` | httpd.py:61-63 | after a request line and header lines that unpack, a header line that does not unpack makes the parse fail, whatever follows it |
| `Request.SplitHeaderShape` | httpd.py:61-63 | a line unpacks into `(name, value)` only if, line end removed, it is `name + ": " + value` with no `": "` in either part |
| `Request.HeaderLineSplits` | httpd.py:61-63 | conversely, such a line unpacks into exactly that name and value |
| `Request.ScanHeadersGood` | httpd.py:57-64 | lines that all unpack, then a blank line or the end of input: the loop succeeds, builds the reference map `HeaderMap`, and leaves exactly the lines after the blank one unread |
| `Request.ScanHeadersBad` | httpd.py:63 | lines that unpack, then one that does not: the loop fails, whatever follows |
| `Request.LastHeaderWins` | httpd.py:64 | in the header map the last line carrying a name gives that name's value |
| `Request.UnnamedHeaderKept` | httpd.py:64 | a name no header line carries keeps its previous presence and value |
| `Content.GetHeadReply` | httpd.py:152-165 | defines the decision of `process_get_and_head` over the corrected path `UrlPath.SafeResolve`: 404 when it does not exist, `list_directory` for a directory, `retrieve_file` for a regular file, 403 otherwise |
| `Content.RetrieveReply` | httpd.py:132-148 | 200 exactly when the file opens, with the file's bytes and the guessed type, or `application/octet-stream` when there is no guess; 404 otherwise |
| `Content.ListingReply` | httpd.py:115-130 | a listable directory whose listing names `index.html` gives exactly the reply for `dir/index.html`; any other case is 404 |
| `Content.GetHeadStatus` | httpd.py:152-165 | every refusal is 404 or 403; when the converted path `UrlPath.SafeResolve` does not exist the answer is 404; 403 is given exactly when that path exists and is neither a directory nor a regular file |
| `Content.GetHeadDispatch` | httpd.py:158-161 | when `UrlPath.SafeResolve` names a directory it is answered by `list_directory`, a regular file by `retrieve_file` |
| `Content.DirectoryWithIndex` | httpd.py:123-126 | when `UrlPath.SafeResolve` names a directory listing `index.html`, the answer is exactly `retrieve_file(dir/index.html)` |
| `Content.DirectoryWithoutIndex` | httpd.py:116-130 | when `UrlPath.SafeResolve` names a directory whose listing fails or lacks `index.html`, the answer is 404 |
| `Content.ServedIsReadableFile` | httpd.py:152-165 | whatever is served is the bytes and guessed type of a readable regular file, either `UrlPath.SafeResolve` of the target or its `index.html`, and that file's path begins with the document root |
| `UrlPath.Unquote` | httpd.py:74 | defines `unquote`: `%XY` with two hex digits becomes the character with code `XY`; every other character, a lone `%` included, is kept |
| `UrlPath.Decode` | httpd.py:74 | defines `unquote_plus`: `+` becomes a space, then `unquote` |
| `UrlPath.NormComps` | httpd.py:75 | defines the component loop of `posixpath.normpath`: empty and `.` components are dropped; `..` removes the previous component, is kept at the start of a relative path or after a kept `..`, and is dropped at the start of an absolute path |
| `UrlPath.NormPath` | httpd.py:75 | defines `posixpath.normpath`: `.` for the empty path; otherwise the kept leading slashes, then the kept components joined with `/`, or `.` when that is empty |
| `UrlPath.JoinPath` | httpd.py:77 | defines `posixpath.join` of two parts: the second alone when it begins with `/`, otherwise the two joined with one `/` unless the first is empty or ends in `/` |
| `UrlPath.Relative` | httpd.py:73-76 | defines the as-written relative part: query dropped, `unquote_plus`, `normpath`, `strip('/')` |
| `UrlPath.Resolve` | httpd.py:73-77 | defines the as-written joined path: the document root joined with the relative part |
| `UrlPath.BeforeQuery` | httpd.py:73 | the result is the longest prefix of the target without `?`, and it stops only at a `?` |
| `UrlPath.BeforeQueryAppend` | httpd.py:73 | text without `?` before the query is kept whole; everything after the first `?` is dropped |
| `UrlPath.DecodeEscape` | httpd.py:74 | `%XY` with two hex digits decodes to one character wherever it stands |
| `UrlPath.DecodeLiteral` | httpd.py:74 | a character that is neither `%` nor a hex digit decodes to itself wherever it stands, except `+`, which becomes a space |
| `UrlPath.PlusAndEscapedPlus` | httpd.py:74 | `+` decodes to a space, `%2B` decodes to `+` |
| `UrlPath.DecodeDot` | httpd.py:74 | `%2e` and `%2E` decode exactly like `.` |
| `UrlPath.DecodePlain` | httpd.py:74 | a target without `%` and `+` is unchanged by decoding |
| `UrlPath.DecodeKeepsSlash` | httpd.py:74 | decoding keeps a leading `/` |
| `UrlPath.InitialSlashes` | httpd.py:75 | `normpath` keeps at most two leading slashes, and some exactly when the path begins with `/` |
| `UrlPath.NormCompsAbsolute` | httpd.py:75 | in an absolute path every component `normpath` keeps names a child: none is empty, `.` or `..` |
| `UrlPath.CleanSegments` | httpd.py:75 | the same for the components of any absolute path as split on `/` |
| `UrlPath.NormStripAbsolute` | httpd.py:75-76 | for an absolute path, `normpath(...).strip('/')` is the clean components joined with `/` |
| `UrlPath.ConvertPath` | httpd.py:66-80 | the joined path when it exists, `None` exactly when it does not |
| `UrlPath.ResolveUnderRoot` | httpd.py:76-77 | the joined path begins with the document root, then one `/` (none if the root already ends in one), then the relative part |
| `UrlPath.CleanJoinConfined` | httpd.py:75-76 | the clean components of an absolute path, joined, are a relative path of child names only |
| `UrlPath.AbsoluteTargetConfined` | httpd.py:73-77 | for a target beginning with `/`, however it uses `..`, `.`, repeated `/`, `%2e` or a query, the relative part is empty or made only of child names |
| `UrlPath.DecodeTwoDots` | httpd.py:74 | two spellings of `.` in a row decode like `..` |
| `UrlPath.EncodedDotsAreDots` | httpd.py:73-75 | a target with `%2e%2e` (any case mix) resolves exactly like the same target with `..` |
| `UrlPath.ParentTargetEscapes` | httpd.py:75-77 | as written, the target `..` keeps its `..` and resolves to `root/..`, the parent of the document root |
| `UrlPath.SafeConvertPath` | httpd.py:66-80 | the corrected conversion: the joined path when it exists, `None` exactly when it does not |
| `UrlPath.SafeRelativeConfined` | httpd.py:73-77 | the corrected relative part is confined for every target |
| `UrlPath.SafeResolvePrefix` | httpd.py:77 | the corrected joined path begins with the document root |
| `UrlPath.SafeResolveUnderRoot` | httpd.py:76-77 | the corrected joined path is the root, a `/` if needed, and a confined relative part |
| `UrlPath.SafeRelativeAgrees` | httpd.py:73-76 | the corrected relative part equals the as-written one whenever the decoded target begins with `/` |
| `UrlPath.SafeConvertPathAgrees` | httpd.py:66-80 | on every target beginning with `/`, the corrected conversion returns exactly what the code as written returns |
| `Wire.StatusLine` | httpd.py:87-91 | defines the status line: protocol, space, decimal code, space, message, CRLF |
| `Wire.HeaderLine` | httpd.py:103 | defines a header line: key, `": "`, value, CRLF |
| `Wire.ErrorHead` | httpd.py:109-113 | defines the head `send_error` writes: status line, `Server`, `Connection: close`, blank line |
| `Wire.SuccessHead` | httpd.py:94-100 | defines the head `send_headers` writes: status line, `Server`, `Content-Type`, `Content-Length`, `Connection: close`, blank line |
| `Wire.StatusTextNoLineBreak` | httpd.py:87-91 | a status line built from a protocol and a reason without line breaks holds no line break before its CRLF |
| `Wire.ErrorHeadLines` | httpd.py:109-113 | split at CRLF, the error head is the status line, `Server: OTUS server/0.1`, `Connection: close` and the blank line, with no `Content-Type` or `Content-Length` |
| `Wire.SuccessHeadLines` | httpd.py:94-100 | split at CRLF, the success head is the status line, then `Server`, `Content-Type`, `Content-Length` and `Connection: close` in that order, then the blank line |
| `Decimal.DecimalDigits` | httpd.py:98 | `Content-Length` is written as a non-empty run of decimal digits without a leading zero |
| `Decimal.DecimalRoundTrip` | httpd.py:98 | reading the written `Content-Length` back gives the length |
| `Decimal.DecimalDigitsInjective` | httpd.py:98 | different lengths are written differently |
| `Strings.Words` | httpd.py:48 | `split()` yields only non-empty, whitespace-free tokens; `Strings.WordsOfSpaced` and `Strings.SpacedWords` pin down which ones |
| `Strings.WordsOfSpaced` | httpd.py:48 | tokens laid out with whitespace gaps (any whitespace characters, any amount, non-empty between tokens, optional before the first and after the last) split back into exactly those tokens |
| `Strings.SpacedWords` | httpd.py:48 | conversely, every string is its `split()` tokens laid out with such gaps, so `split()` discards only whitespace |
| `Strings.WordsBeforeGap` | httpd.py:47-48 | whitespace appended to a string does not change its `split()` tokens |
| `Strings.SkipSpace` | httpd.py:48 | removes exactly the leading run of whitespace: what it drops is all whitespace and what it keeps does not begin with whitespace |
| `Strings.SplitOn` | httpd.py:63 | defines `str.split(sep)`: the text up to the first `sep`, then the split of the rest |
| `Strings.JoinOn` | httpd.py:75 | defines `sep.join(parts)`, which `normpath` uses to rebuild the path |
| `Strings.Lower` | httpd.py:38 | defines `str.lower()` on ASCII letters, and keeps the length |
| `Strings.IndexOf` | httpd.py:63 | the first occurrence of the separator, or `None` exactly when there is none |
| `Strings.SplitOnParts` | httpd.py:63 | `split(sep)` yields at least one piece, no piece holds `sep`, and joining the pieces with `sep` rebuilds the string |
| `Strings.SplitOnJoinOn` | httpd.py:63 | splitting the join of separator-free pieces gives the pieces back (for `": "`, `"/"` and CRLF) |
| `Strings.RStripLineEnds` | httpd.py:47 | `rstrip('\r\n')` removes exactly the trailing run of `\r`/`\n` |
| `Strings.RStripAppended` | httpd.py:62 | text that does not end in `\r`/`\n`, followed by any line end, strips back to that text |
| `Strings.Strip` | httpd.py:76 | `strip('/')` never begins or ends with `/` |
| `Strings.StripPadded` | httpd.py:76 | stripping `/` from slashes followed by a string that neither begins nor ends with `/` gives that string |

The `HttpCode` table (httpd.py:17-21) and `server_version` (httpd.py:25) are the constants
`Wire.OK`, `Wire.FORBIDDEN`, `Wire.NOT_FOUND`, `Wire.METHOD_NOT_ALLOWED` and
`Wire.ServerVersion`.

## Left out

- `run_server`, the `__main__` block, `argparse`, the `TCPServer` and its worker threads (httpd.py:179-217): sockets and concurrency. `Httpd.ServeConnection` models one connection given its whole input.
- Every `logging` call: logging has no effect on the response.
- `mimetypes.guess_type` is a library lookup table. It is the parameter `guess`, a function from path to optional type.
- The real file system. `os.path.exists`, `isdir`, `isfile`, `os.listdir` and `open`/`read` read one fixed `FileSystem.Tree`. Changes between those calls (races) are not modelled. Symbolic links and the operating system's own `..` handling are folded into the tree's keys.
- `Content.RetrieveReply`: a node that exists but is neither a directory nor a regular file is treated as unopenable (404) when reached as `dir/index.html`. The source would call `open` on it, and what that does depends on the device.
- `Httpd.Dispatch`: `hasattr`/`getattr` would run any attribute whose name is the lower-cased method, for example `handle` or `finish`. The model dispatches only `get` and `head`, and every other name to 405.
- `Content.GetHeadReply`: it decides on the corrected path `UrlPath.SafeResolve`, not on `convert_path`'s `UrlPath.Resolve` (see Findings). The two agree on every target whose decoded form begins with `/`. They differ on the others: for the target `..` the source looks at `root/..`, the parent of the document root, while the model looks at `root/`.
- `Httpd.OtusRequestHandler.ProcessGetAndHead`, and through it `Get`, `Head`, `Handle`, `ServeConnection` and `Exchange`: they use `Content.GetHeadReply`, so they share its difference from the source on targets whose decoded form does not begin with `/`.
- `Httpd.OtusRequestHandler.Get`: after an error head, the source calls `wfile.write(None)`, which raises. The model writes nothing more, and the raise itself is not modelled.
- `Httpd.OtusRequestHandler.ParseRequest`: a header line that does not unpack raises `ValueError` out of `handle`. It is modelled as the result `false` with nothing written. The lines read and the headers set up to that point stay as they were.
- UTF-8 decoding of the request and header lines, and Latin-1 encoding of the head (httpd.py:46, 61, 92, 104). Lines are modelled as characters, and decode and encode errors are not modelled.
- `UrlPath.Unquote`: each `%XY` escape becomes the character with code `XY`. Python decodes runs of escapes of `%80` and above as UTF-8 (with replacement characters), which is not modelled.
- `Strings.Lower`: lower-cases ASCII letters only. That is enough to decide whether a name is `get` or `head`, but it differs from Python's `str.lower` on other letters.
- The source has no 400 or 431 response and no limit on line length, so the model has none either.

## Findings

| source | as written | input that shows it | evidently intended | confidence | as-written member | corrected member |
|---|---|---|---|---|---|---|
| httpd.py:75-77 | `normpath` is applied to the decoded target as it is. A target that does not begin with `/` is normalised as a relative path, so a leading `..` survives `strip('/')` and the join climbs out of the document root. | the request line `GET .. HTTP/1.1`, or `GET ../secret.txt HTTP/1.1`: the handler checks and serves `document_root + "/.."` and `document_root + "/../secret.txt"` | every converted path lies at or below the document root, as it already does for targets beginning with `/` | not executed | `UrlPath.ParentTargetEscapes` | `UrlPath.SafeRelativeConfined` |

The corrected conversion, `UrlPath.SafeConvertPath`, normalises `"/" + decoded target`. The
handler (`Content.GetHeadReply`, `Httpd.OtusRequestHandler.ProcessGetAndHead`) uses it.
`UrlPath.SafeConvertPathAgrees` proves that it returns exactly what the code as written
returns on every target beginning with `/`. So the model differs from the source only on the
targets the finding is about.
