/**
 * `OtusRequestHandler.convert_path`: from the request target to a path
 * under the document root.  The pipeline is
 *   target.split('?', 1)[0]  ->  unquote_plus  ->  posixpath.normpath
 *   ->  strip('/')  ->  posixpath.join(document_root, ...)  ->  exists?
 */
module UrlPath {
  import opened Wrappers
  import opened Strings
  import opened FileSystem

  // ---------------------------------------------------------------------------
  // Dropping the query
  // ---------------------------------------------------------------------------

  /** `target.split('?', 1)[0]`: the longest prefix without `?`. */
  function BeforeQuery(target: string): (r: string)
    ensures |r| <= |target| && r == target[..|r|]
    ensures forall k :: 0 <= k < |r| ==> r[k] != '?'
    ensures |r| < |target| ==> target[|r|] == '?'
    decreases |target|
  {
    if target == [] || target[0] == '?' then [] else [target[0]] + BeforeQuery(target[1..])
  }

  /** Text holding no `?`. */
  predicate NoQuery(a: string) {
    forall k :: 0 <= k < |a| ==> a[k] != '?'
  }

  lemma NoQueryCons(a: string)
    requires a != []
    ensures NoQuery(a) <==> a[0] != '?' && NoQuery(a[1..])
  {
    if a[0] != '?' && NoQuery(a[1..]) {
      forall k | 0 <= k < |a| ensures a[k] != '?' {
        if k > 0 { assert a[k] == a[1..][k - 1]; }
      }
    }
  }

  /** Text without `?` in front of the query is kept whole, and text after a
      `?` is dropped. */
  lemma {:induction false} BeforeQueryAppend(a: string, b: string)
    ensures BeforeQuery(a + b) == if NoQuery(a) then a + BeforeQuery(b) else BeforeQuery(a)
    decreases |a|
  {
    if a == [] {
      assert a + b == b;
    } else {
      assert (a + b)[0] == a[0];
      assert (a + b)[1..] == a[1..] + b;
      NoQueryCons(a);
      if a[0] != '?' {
        BeforeQueryAppend(a[1..], b);
        if NoQuery(a) {
          calc {
            BeforeQuery(a + b);
            [a[0]] + BeforeQuery(a[1..] + b);
            [a[0]] + (a[1..] + BeforeQuery(b));
            { assert [a[0]] + a[1..] == a; }
            a + BeforeQuery(b);
          }
        }
      }
    }
  }

  // ---------------------------------------------------------------------------
  // unquote_plus
  // ---------------------------------------------------------------------------

  predicate IsHexDigit(c: char) {
    ('0' <= c <= '9') || ('a' <= c <= 'f') || ('A' <= c <= 'F')
  }

  function HexValue(c: char): (v: nat)
    requires IsHexDigit(c)
    ensures v < 16
  {
    if '0' <= c <= '9' then c as int - '0' as int
    else if 'a' <= c <= 'f' then c as int - 'a' as int + 10
    else c as int - 'A' as int + 10
  }

  /** The character an escape `%XY` stands for. */
  function EscapedChar(x: char, y: char): char
    requires IsHexDigit(x) && IsHexDigit(y)
  {
    (16 * HexValue(x) + HexValue(y)) as char
  }

  /** `s.replace('+', ' ')`, the first step of `unquote_plus`. */
  function ReplacePlus(s: string): (r: string)
    ensures |r| == |s|
  {
    seq(|s|, i requires 0 <= i < |s| => if s[i] == '+' then ' ' else s[i])
  }

  /** `unquote`: every `%XY` with two hex digits becomes one character;
      a `%` not followed by two hex digits stays as it is. */
  function Unquote(s: string): string
    decreases |s|
  {
    if s == [] then []
    else if |s| >= 3 && s[0] == '%' && IsHexDigit(s[1]) && IsHexDigit(s[2]) then
      [EscapedChar(s[1], s[2])] + Unquote(s[3..])
    else
      [s[0]] + Unquote(s[1..])
  }

  /** `urllib.parse.unquote_plus`. */
  function Decode(s: string): string {
    Unquote(ReplacePlus(s))
  }

  lemma ReplacePlusAppend(a: string, b: string)
    ensures ReplacePlus(a + b) == ReplacePlus(a) + ReplacePlus(b)
  {
  }

  /** Decoding splits at any point where the right-hand part does not begin
      with a hex digit, because no escape can straddle that point. */
  lemma {:induction false} UnquoteAppend(x: string, y: string)
    requires y == [] || !IsHexDigit(y[0])
    ensures Unquote(x + y) == Unquote(x) + Unquote(y)
    decreases |x|
  {
    var s := x + y;
    if x == [] {
      assert s == y;
    } else if |x| >= 3 && x[0] == '%' && IsHexDigit(x[1]) && IsHexDigit(x[2]) {
      assert s[..3] == x[..3];
      assert s[3..] == x[3..] + y;
      UnquoteAppend(x[3..], y);
      ConcatAssoc([EscapedChar(x[1], x[2])], Unquote(x[3..]), Unquote(y));
    } else {
      assert s[0] == x[0];
      assert !(|s| >= 3 && s[0] == '%' && IsHexDigit(s[1]) && IsHexDigit(s[2])) by {
        if |x| >= 3 {
          assert s[1] == x[1] && s[2] == x[2];
        } else if |x| == 2 && |s| >= 3 {
          assert s[2] == y[0];
        } else if |s| >= 3 {
          assert s[1] == y[0];
        }
      }
      assert s[1..] == x[1..] + y;
      UnquoteAppend(x[1..], y);
      ConcatAssoc([x[0]], Unquote(x[1..]), Unquote(y));
    }
  }

  /** A percent escape with two hex digits decodes to its character wherever
      it stands: `%2B` gives `+` and `%2e` gives `.`. */
  lemma DecodeEscape(a: string, x: char, y: char, b: string)
    requires IsHexDigit(x) && IsHexDigit(y)
    ensures Decode(a + ['%', x, y] + b) == Decode(a) + [EscapedChar(x, y)] + Decode(b)
  {
    var e := ['%', x, y];
    var ra, rb := ReplacePlus(a), ReplacePlus(b);
    calc {
      Decode(a + e + b);
      { ReplacePlusAppend(a + e, b); ReplacePlusAppend(a, e); assert ReplacePlus(e) == e; }
      Unquote(ra + e + rb);
      { ConcatAssoc(ra, e, rb); }
      Unquote(ra + (e + rb));
      { UnquoteAppend(ra, e + rb); }
      Unquote(ra) + Unquote(e + rb);
      { UnquoteEscape(x, y, rb); }
      Unquote(ra) + ([EscapedChar(x, y)] + Unquote(rb));
      { ConcatAssoc(Unquote(ra), [EscapedChar(x, y)], Unquote(rb)); }
      Decode(a) + [EscapedChar(x, y)] + Decode(b);
    }
  }

  lemma UnquoteEscape(x: char, y: char, s: string)
    requires IsHexDigit(x) && IsHexDigit(y)
    ensures Unquote(['%', x, y] + s) == [EscapedChar(x, y)] + Unquote(s)
  {
    var t := ['%', x, y] + s;
    assert t[0] == '%' && t[1] == x && t[2] == y;
    assert t[3..] == s;
  }

  lemma UnquoteLiteral(c: char, s: string)
    requires c != '%'
    ensures Unquote([c] + s) == [c] + Unquote(s)
  {
    assert ([c] + s)[1..] == s;
  }

  /** A character that is neither `%` nor a hex digit decodes to itself,
      except `+`, which decodes to a space. */
  lemma DecodeLiteral(a: string, c: char, b: string)
    requires c != '%' && !IsHexDigit(c)
    ensures Decode(a + [c] + b) == Decode(a) + [if c == '+' then ' ' else c] + Decode(b)
  {
    var d := if c == '+' then ' ' else c;
    var ra, rb := ReplacePlus(a), ReplacePlus(b);
    calc {
      Decode(a + [c] + b);
      { ReplacePlusAppend(a + [c], b); ReplacePlusAppend(a, [c]); assert ReplacePlus([c]) == [d]; }
      Unquote(ra + [d] + rb);
      { ConcatAssoc(ra, [d], rb); }
      Unquote(ra + ([d] + rb));
      { UnquoteAppend(ra, [d] + rb); }
      Unquote(ra) + Unquote([d] + rb);
      { UnquoteLiteral(d, rb); }
      Unquote(ra) + ([d] + Unquote(rb));
      { ConcatAssoc(Unquote(ra), [d], Unquote(rb)); }
      Decode(a) + [d] + Decode(b);
    }
  }

  /** `+` decodes to a space, while the escape `%2B` decodes to `+`. */
  lemma PlusAndEscapedPlus(a: string, b: string)
    ensures Decode(a + "+" + b) == Decode(a) + " " + Decode(b)
    ensures Decode(a + "%2B" + b) == Decode(a) + "+" + Decode(b)
  {
    DecodeLiteral(a, '+', b);
    assert "%2B" == ['%', '2', 'B'];
    DecodeEscape(a, '2', 'B', b);
    assert EscapedChar('2', 'B') == '+';
  }

  /** The ways of spelling one `.` in a target. */
  predicate DotSpelling(e: string) {
    e == "." || e == "%2e" || e == "%2E"
  }

  /** Every spelling of `.` decodes like `.` itself. */
  lemma DecodeDot(a: string, e: string, b: string)
    requires DotSpelling(e)
    ensures Decode(a + e + b) == Decode(a + "." + b)
  {
    DecodeLiteral(a, '.', b);
    if e != "." {
      DecodeEscape(a, e[1], e[2], b);
      assert e == ['%', e[1], e[2]];
      assert EscapedChar(e[1], e[2]) == '.';
    }
  }

  /** A plain string without `%` decodes to itself apart from `+`. */
  lemma {:induction false} DecodePlain(s: string)
    requires forall k :: 0 <= k < |s| ==> s[k] != '%' && s[k] != '+'
    ensures Decode(s) == s
    decreases |s|
  {
    if s != [] {
      var r := ReplacePlus(s);
      assert r == s;
      assert Unquote(s) == [s[0]] + Unquote(s[1..]);
      DecodePlain(s[1..]);
      assert ReplacePlus(s[1..]) == s[1..];
    }
  }

  /** A string that starts with `/` still starts with `/` once decoded. */
  lemma DecodeKeepsSlash(s: string)
    requires s != [] && s[0] == '/'
    ensures Decode(s) != [] && Decode(s)[0] == '/'
  {
    assert ReplacePlus(s)[0] == '/';
  }

  // ---------------------------------------------------------------------------
  // posixpath.normpath
  // ---------------------------------------------------------------------------

  predicate NoSlash(c: string) {
    forall k :: 0 <= k < |c| ==> c[k] != '/'
  }

  /** A path component that names a child: not empty, not `.`, not `..`,
      and without `/`. */
  predicate Segment(c: string) {
    c != "" && c != "." && c != ".." && NoSlash(c)
  }

  function Slashes(n: nat): (r: string)
    ensures |r| == n
  {
    seq(n, _ => '/')
  }

  /** The loop over the components in `normpath`: drop empty and `.`
      components; a `..` removes the previous component, except that it is
      kept at the start of a relative path or after another kept `..`, and
      is dropped at the start of an absolute path. */
  function NormComps(comps: seq<string>, absolute: bool, acc: seq<string>): seq<string>
    decreases |comps|
  {
    if comps == [] then acc
    else
      var c := comps[0];
      var acc' :=
        if c == "" || c == "." then acc
        else if c != ".." || (!absolute && acc == []) || (acc != [] && acc[|acc| - 1] == "..") then acc + [c]
        else if acc != [] then acc[..|acc| - 1]
        else acc;
      NormComps(comps[1..], absolute, acc')
  }

  /** The number of leading slashes `normpath` keeps: two for exactly two,
      one for one or three and more, none for a relative path. */
  function InitialSlashes(p: string): (n: nat)
    ensures n <= 2
    ensures n > 0 <==> (p != [] && p[0] == '/')
  {
    if |p| >= 2 && p[0] == '/' && p[1] == '/' && !(|p| >= 3 && p[2] == '/') then 2
    else if p != [] && p[0] == '/' then 1
    else 0
  }

  /** `posixpath.normpath(p)`. */
  function NormPath(p: string): string {
    if p == "" then "."
    else
      var k := InitialSlashes(p);
      var q := Slashes(k) + JoinOn(NormComps(SplitOn(p, "/"), k > 0, []), "/");
      if q == "" then "." else q
  }

  /** In an absolute path every kept component names a child: nothing can
      climb above `/`. */
  lemma {:induction false} NormCompsAbsolute(comps: seq<string>, acc: seq<string>)
    requires forall i :: 0 <= i < |comps| ==> NoSlash(comps[i])
    requires forall i :: 0 <= i < |acc| ==> Segment(acc[i])
    ensures forall i :: 0 <= i < |NormComps(comps, true, acc)| ==> Segment(NormComps(comps, true, acc)[i])
    decreases |comps|
  {
    if comps != [] {
      var c := comps[0];
      var acc' :=
        if c == "" || c == "." then acc
        else if c != ".." || (acc != [] && acc[|acc| - 1] == "..") then acc + [c]
        else if acc != [] then acc[..|acc| - 1]
        else acc;
      assert forall i :: 0 <= i < |acc'| ==> Segment(acc'[i]);
      assert NormComps(comps, true, acc) == NormComps(comps[1..], true, acc');
      NormCompsAbsolute(comps[1..], acc');
    }
  }

  /** The components of an absolute path after normalisation. */
  function Clean(d: string): seq<string> {
    NormComps(SplitOn(d, "/"), true, [])
  }

  /** The clean components of an absolute path all name children. */
  lemma CleanSegments(d: string)
    ensures forall i :: 0 <= i < |Clean(d)| ==> Segment(Clean(d)[i])
  {
    var comps := SplitOn(d, "/");
    SplitOnParts(d, "/");
    forall i | 0 <= i < |comps| ensures NoSlash(comps[i]) {
      CharOfFree(comps[i], '/');
    }
    NormCompsAbsolute(comps, []);
  }

  /** The first and last characters of a join of non-empty parts. */
  lemma {:induction false} JoinOnEnds(parts: seq<string>, sep: string)
    requires |parts| >= 1
    requires forall i :: 0 <= i < |parts| ==> parts[i] != []
    ensures var j := JoinOn(parts, sep);
      j != [] && j[0] == parts[0][0] && j[|j| - 1] == parts[|parts| - 1][|parts[|parts| - 1]| - 1]
    decreases |parts|
  {
    if |parts| > 1 {
      var rest := parts[1..];
      JoinOnEnds(rest, sep);
      assert rest[|rest| - 1] == parts[|parts| - 1];
      assert JoinOn(parts, sep) == parts[0] + sep + JoinOn(rest, sep);
    }
  }

  /** For an absolute path, `normpath(d).strip('/')` is the clean components
      joined with `/`. */
  lemma NormStripAbsolute(d: string)
    requires d != [] && d[0] == '/'
    ensures Strip(NormPath(d), '/') == JoinOn(Clean(d), "/")
  {
    var comps := Clean(d);
    var k := InitialSlashes(d);
    var j := JoinOn(comps, "/");
    CleanSegments(d);
    if comps != [] {
      JoinOnEnds(comps, "/");
    } else {
      assert j == "";
    }
    StripPadded(Slashes(k), '/', j);
  }

  // ---------------------------------------------------------------------------
  // posixpath.join and the whole conversion
  // ---------------------------------------------------------------------------

  /** `posixpath.join(a, b)`. */
  function JoinPath(a: string, b: string): string {
    if b != [] && b[0] == '/' then b
    else if a == [] || a[|a| - 1] == '/' then a + b
    else a + "/" + b
  }

  /** Joining a name that does not start with `/` extends the left side. */
  lemma JoinPathExtends(a: string, b: string)
    requires b == [] || b[0] != '/'
    ensures |a| <= |JoinPath(a, b)| && JoinPath(a, b)[..|a|] == a
  {
  }

  /** The part of `convert_path` before the join:
      `normpath(unquote_plus(target.split('?', 1)[0])).strip('/')`. */
  function Relative(target: string): string {
    Strip(NormPath(Decode(BeforeQuery(target))), '/')
  }

  /** The joined path `convert_path` checks for existence. */
  function Resolve(root: string, target: string): string {
    JoinPath(root, Relative(target))
  }

  /** `convert_path`: the joined path when it exists, `None` otherwise. */
  function ConvertPath(fs: Tree, root: string, target: string): (r: Option<string>)
    ensures r.Some? <==> Exists(fs, Resolve(root, target))
    ensures r.Some? ==> r.value == Resolve(root, target)
  {
    var full := Resolve(root, target);
    if Exists(fs, full) then Some(full) else None
  }

  /** A relative path made only of child names: it stays where it starts. */
  predicate Confined(rel: string) {
    rel == "" || forall i :: 0 <= i < |SplitOn(rel, "/")| ==> Segment(SplitOn(rel, "/")[i])
  }

  /** The joined path always begins with the document root, followed by the
      relative part, with one `/` between them unless the root already ends
      in `/`. */
  lemma ResolveUnderRoot(root: string, target: string)
    ensures var full, rel := Resolve(root, target), Relative(target);
      && |root| <= |full| && full[..|root|] == root
      && (root == [] || root[|root| - 1] == '/' ==> full == root + rel)
      && (root != [] && root[|root| - 1] != '/' ==> full == root + "/" + rel)
  {
  }

  /** The clean components of an absolute path, joined, are confined. */
  lemma CleanJoinConfined(d: string)
    ensures Confined(JoinOn(Clean(d), "/"))
  {
    var comps := Clean(d);
    CleanSegments(d);
    if comps != [] {
      forall i | 0 <= i < |comps| ensures Free(comps[i], "/") {
        FreeOfChar(comps[i], "/");
      }
      SplitOnJoinOn(comps, "/");
    }
  }

  /** The traversal guard for targets that begin with `/`: whatever `..`,
      `.`, repeated `/` or percent escapes they contain, the relative part is
      empty or a `/`-separated list of child names, so the joined path is the
      document root itself or lies below it. */
  lemma AbsoluteTargetConfined(target: string)
    requires target != [] && target[0] == '/'
    ensures Confined(Relative(target))
  {
    var q := BeforeQuery(target);
    assert q != [] && q[0] == '/';
    DecodeKeepsSlash(q);
    NormStripAbsolute(Decode(q));
    CleanJoinConfined(Decode(q));
  }

  /** Two spellings of `.` in a row decode like `..`. */
  lemma DecodeTwoDots(a: string, e1: string, e2: string, c: string)
    requires DotSpelling(e1) && DotSpelling(e2)
    ensures Decode(a + (e1 + e2 + c)) == Decode(a + (".." + c))
  {
    calc {
      Decode(a + (e1 + e2 + c));
      { assert a + (e1 + e2 + c) == a + e1 + (e2 + c); }
      Decode(a + e1 + (e2 + c));
      { DecodeDot(a, e1, e2 + c); }
      Decode(a + "." + (e2 + c));
      { assert a + "." + (e2 + c) == (a + ".") + e2 + c; }
      Decode((a + ".") + e2 + c);
      { DecodeDot(a + ".", e2, c); }
      Decode((a + ".") + "." + c);
      { assert (a + ".") + "." + c == a + (".." + c); }
      Decode(a + (".." + c));
    }
  }

  /** `..` spelled with percent escapes is the same as `..`: the two targets
      resolve to the same path. */
  lemma EncodedDotsAreDots(a: string, e1: string, e2: string, b: string)
    requires DotSpelling(e1) && DotSpelling(e2)
    ensures Relative(a + e1 + e2 + b) == Relative(a + ".." + b)
  {
    var x := e1 + e2;
    assert forall k :: 0 <= k < |x| ==> x[k] != '?';
    assert forall k :: 0 <= k < |".."| ==> ".."[k] != '?';
    BeforeQueryAppend(a, x + b);
    BeforeQueryAppend(a, ".." + b);
    BeforeQueryAppend(x, b);
    BeforeQueryAppend("..", b);
    ConcatAssoc(a, e1, e2);
    ConcatAssoc(a, x, b);
    ConcatAssoc(a, "..", b);
    if NoQuery(a) {
      DecodeTwoDots(a, e1, e2, BeforeQuery(b));
    }
  }

  // ---------------------------------------------------------------------------
  // A target that does not begin with `/`
  // ---------------------------------------------------------------------------

  /** As written, a target that does not begin with `/` is normalised as a
      relative path, so a leading `..` survives and the joined path names the
      parent of the document root. */
  lemma ParentTargetEscapes(root: string)
    requires root != [] && root[|root| - 1] != '/'
    ensures Relative("..") == ".."
    ensures Resolve(root, "..") == root + "/.."
  {
    ParentRelative();
    ConcatAssoc(root, "/", "..");
    assert "/" + ".." == "/..";
  }

  lemma ParentRelative()
    ensures Relative("..") == ".."
  {
    assert BeforeQuery("..") == "..";
    DecodePlain("..");
    var comps := SplitOn("..", "/");
    FreeOfChar("..", "/");
    assert comps == [".."];
    assert NormComps(comps, false, []) == [".."];
    assert NormPath("..") == "..";
    assert DropLeading("..", '/') == "..";
    assert DropTrailing("..", '/') == "..";
  }

  /** The corrected relative part: the decoded path is made absolute before
      normalisation, so no `..` can survive it. */
  function SafeRelative(target: string): string {
    Strip(NormPath("/" + Decode(BeforeQuery(target))), '/')
  }

  /** The joined path the corrected conversion checks for existence. */
  function SafeResolve(root: string, target: string): string {
    JoinPath(root, SafeRelative(target))
  }

  /** The corrected conversion: the joined path when it exists. */
  function SafeConvertPath(fs: Tree, root: string, target: string): (r: Option<string>)
    ensures r.Some? <==> Exists(fs, SafeResolve(root, target))
    ensures r.Some? ==> r.value == SafeResolve(root, target)
  {
    var full := SafeResolve(root, target);
    if Exists(fs, full) then Some(full) else None
  }

  /** The corrected conversion is confined for every target. */
  lemma SafeRelativeConfined(target: string)
    ensures Confined(SafeRelative(target))
  {
    var d := "/" + Decode(BeforeQuery(target));
    NormStripAbsolute(d);
    CleanJoinConfined(d);
  }

  /** The corrected joined path begins with the document root. */
  lemma SafeResolvePrefix(root: string, target: string)
    ensures var full := SafeResolve(root, target);
      |root| <= |full| && full[..|root|] == root
  {
    var rel := SafeRelative(target);
    assert rel == [] || rel[0] != '/';
    JoinPathExtends(root, rel);
  }

  /** The corrected joined path is the document root, a `/` unless the root
      already ends in one, and a relative path made only of child names. */
  lemma SafeResolveUnderRoot(root: string, target: string)
    ensures var full, rel := SafeResolve(root, target), SafeRelative(target);
      && Confined(rel)
      && (root == [] || root[|root| - 1] == '/' ==> full == root + rel)
      && (root != [] && root[|root| - 1] != '/' ==> full == root + "/" + rel)
  {
    SafeRelativeConfined(target);
  }

  /** The corrected conversion agrees with the code as written on every
      target whose decoded form begins with `/`, in particular on every
      target that begins with `/`. */
  lemma SafeRelativeAgrees(target: string)
    requires var d := Decode(BeforeQuery(target)); d != [] && d[0] == '/'
    ensures SafeRelative(target) == Relative(target)
  {
    var d := Decode(BeforeQuery(target));
    var d' := "/" + d;
    NormStripAbsolute(d);
    NormStripAbsolute(d');
    OccursAtChar(d', '/', 0);
    IndexOfFirst(d', "/", 0);
    assert d'[1..] == d;
    assert SplitOn(d', "/") == [""] + SplitOn(d, "/");
    assert Clean(d') == Clean(d);
  }

  /** Corollary: on targets that begin with `/` the two conversions agree. */
  lemma SafeConvertPathAgrees(fs: Tree, root: string, target: string)
    requires target != [] && target[0] == '/'
    ensures SafeResolve(root, target) == Resolve(root, target)
    ensures SafeConvertPath(fs, root, target) == ConvertPath(fs, root, target)
  {
    var q := BeforeQuery(target);
    assert q != [] && q[0] == '/';
    DecodeKeepsSlash(q);
    SafeRelativeAgrees(target);
  }
}
