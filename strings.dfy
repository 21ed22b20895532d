/**
 * The parts of Python's `str` that the request handler relies on:
 * `split()` with no argument, `split(sep)`, `sep.join(...)`, `rstrip('\r\n')`,
 * `strip('/')` and `lower()`.  Strings are sequences of characters.
 */
module Strings {
  import opened Wrappers

  // ---------------------------------------------------------------------------
  // Whitespace and str.split()
  // ---------------------------------------------------------------------------

  /** The characters for which Python's `str.isspace()` holds; `str.split()`
      with no argument separates on runs of them. */
  predicate IsSpace(c: char) {
    ('\t' <= c <= '\r') || ('\U{1c}' <= c <= '\U{1f}') || c == ' '
    || c == '\U{85}' || c == '\U{a0}' || c == '\U{1680}'
    || ('\U{2000}' <= c <= '\U{200a}') || c == '\U{2028}' || c == '\U{2029}'
    || c == '\U{202f}' || c == '\U{205f}' || c == '\U{3000}'
  }

  /** A token as `str.split()` produces it: non-empty, no whitespace. */
  predicate Token(w: string) {
    w != [] && forall k :: 0 <= k < |w| ==> !IsSpace(w[k])
  }

  /** `s` with its leading whitespace removed. */
  function SkipSpace(s: string): (r: string)
    ensures |r| <= |s| && r == s[|s| - |r|..]
    ensures r == [] || !IsSpace(r[0])
    ensures forall k :: 0 <= k < |s| - |r| ==> IsSpace(s[k])
    decreases |s|
  {
    if s != [] && IsSpace(s[0]) then SkipSpace(s[1..]) else s
  }

  /** Length of the longest whitespace-free prefix of `s`. */
  function WordLen(s: string): (n: nat)
    ensures n <= |s|
    ensures forall k :: 0 <= k < n ==> !IsSpace(s[k])
    ensures n < |s| ==> IsSpace(s[n])
    decreases |s|
  {
    if s != [] && !IsSpace(s[0]) then 1 + WordLen(s[1..]) else 0
  }

  lemma TokensCons(w: string, ws: seq<string>)
    requires Token(w) && forall i :: 0 <= i < |ws| ==> Token(ws[i])
    ensures forall i :: 0 <= i < |[w] + ws| ==> Token(([w] + ws)[i])
  {
  }

  /** Python's `s.split()`: the maximal whitespace-free runs of `s`, in order. */
  function Words(s: string): (ws: seq<string>)
    ensures forall i :: 0 <= i < |ws| ==> Token(ws[i])
    decreases |s|
  {
    var t := SkipSpace(s);
    if t == [] then []
    else
      var n := WordLen(t);
      assert n >= 1;
      assert Token(t[..n]);
      var rest := Words(t[n..]);
      TokensCons(t[..n], rest);
      [t[..n]] + rest
  }

  /** Leading whitespace never changes the tokens. */
  lemma WordsAfterSpace(c: char, s: string)
    requires IsSpace(c)
    ensures Words([c] + s) == Words(s)
  {
    assert ([c] + s)[1..] == s;
  }

  /** A token followed by nothing or by whitespace is read as one whole word. */
  lemma {:induction false} WordLenOfToken(w: string, rest: string)
    requires Token(w)
    requires rest == [] || IsSpace(rest[0])
    ensures WordLen(w + rest) == |w|
    decreases |w|
  {
    if |w| > 1 {
      assert (w + rest)[1..] == w[1..] + rest;
      WordLenOfToken(w[1..], rest);
    } else {
      assert (w + rest)[1..] == rest;
    }
  }

  /** A token followed by nothing or by whitespace is the first word. */
  lemma WordsOfTokenThen(w: string, rest: string)
    requires Token(w)
    requires rest == [] || IsSpace(rest[0])
    ensures Words(w + rest) == [w] + Words(rest)
  {
    var s := w + rest;
    WordLenOfToken(w, rest);
    assert SkipSpace(s) == s;
    assert s[..|w|] == w && s[|w|..] == rest;
  }

  lemma ConcatAssoc(a: string, b: string, c: string)
    ensures a + b + c == a + (b + c)
  {
  }

  /** Text made only of whitespace, possibly empty. */
  predicate AllSpace(g: string) {
    forall k :: 0 <= k < |g| ==> IsSpace(g[k])
  }

  /** Gaps that can lay out the words `ws`: one gap more than there are
      words, each made of whitespace, and each gap between two words
      non-empty.  The first and the last gap may be empty. */
  predicate Gaps(ws: seq<string>, gaps: seq<string>) {
    && |gaps| == |ws| + 1
    && (forall i :: 0 <= i < |gaps| ==> AllSpace(gaps[i]))
    && (forall i :: 0 < i < |ws| ==> gaps[i] != [])
  }

  /** The words `ws` laid out with `gaps[0]` before the first word,
      `gaps[i]` between word `i - 1` and word `i`, and the last gap after
      the last word. */
  function Spaced(ws: seq<string>, gaps: seq<string>): string
    requires |gaps| == |ws| + 1
    decreases |ws|
  {
    if ws == [] then gaps[0] else gaps[0] + ws[0] + Spaced(ws[1..], gaps[1..])
  }

  /** Whitespace in front never changes the words. */
  lemma {:induction false} WordsAfterGap(g: string, s: string)
    requires AllSpace(g)
    ensures Words(g + s) == Words(s)
    decreases |g|
  {
    if g == [] {
      assert g + s == s;
    } else {
      var t := g[1..] + s;
      assert g + s == [g[0]] + t;
      WordsAfterSpace(g[0], t);
      WordsAfterGap(g[1..], s);
    }
  }

  /** A leading space is skipped, with or without text after `s`. */
  lemma SpaceStep(s: string, g: string)
    requires s != [] && IsSpace(s[0])
    ensures Words(s + g) == Words(s[1..] + g) && Words(s) == Words(s[1..])
  {
    assert s == [s[0]] + s[1..];
    assert s + g == [s[0]] + (s[1..] + g);
    WordsAfterSpace(s[0], s[1..] + g);
    WordsAfterSpace(s[0], s[1..]);
  }

  /** A string that begins with a word splits into that word and the
      words of what follows it. */
  lemma WordsUnfold(u: string)
    requires u != [] && !IsSpace(u[0])
    ensures Words(u) == [u[..WordLen(u)]] + Words(u[WordLen(u)..])
  {
    assert SkipSpace(u) == u;
  }

  /** Whitespace after `s` does not lengthen its first word. */
  lemma WordLenAppend(s: string, g: string)
    requires AllSpace(g)
    ensures WordLen(s + g) == WordLen(s)
  {
    var u, m := s + g, WordLen(s);
    assert m < |u| ==> IsSpace(u[m]) by {
      if m < |s| {
        assert u[m] == s[m];
      } else if m < |u| {
        assert u[m] == g[m - |s|];
      }
    }
    assert forall i :: 0 <= i < m ==> u[i] == s[i];
  }

  lemma SliceAppend(s: string, g: string, n: nat)
    requires n <= |s|
    ensures (s + g)[..n] == s[..n] && (s + g)[n..] == s[n..] + g
  {
  }

  /** A leading word is read whole, with or without whitespace after `s`. */
  lemma WordStep(s: string, g: string)
    requires s != [] && !IsSpace(s[0]) && AllSpace(g)
    ensures var n := WordLen(s);
      && Words(s + g) == [s[..n]] + Words(s[n..] + g)
      && Words(s) == [s[..n]] + Words(s[n..])
  {
    var n, u := WordLen(s), s + g;
    WordLenAppend(s, g);
    WordsUnfold(u);
    WordsUnfold(s);
    SliceAppend(s, g, n);
  }

  /** Whitespace at the end never changes the words. */
  lemma {:induction false} WordsBeforeGap(s: string, g: string)
    requires AllSpace(g)
    ensures Words(s + g) == Words(s)
    decreases |s|
  {
    if s == [] {
      assert s + g == g + s;
      WordsAfterGap(g, s);
    } else if IsSpace(s[0]) {
      SpaceStep(s, g);
      WordsBeforeGap(s[1..], g);
    } else {
      WordStep(s, g);
      WordsBeforeGap(s[WordLen(s)..], g);
    }
  }

  lemma HeadTail(ws: seq<string>)
    requires ws != []
    ensures ws == [ws[0]] + ws[1..]
  {
  }

  /** Dropping the first word and the gap before it leaves a layout whose
      first gap is non-empty unless no word is left. */
  lemma TailGaps(ws: seq<string>, gaps: seq<string>)
    requires Gaps(ws, gaps) && ws != []
    ensures Gaps(ws[1..], gaps[1..])
    ensures ws[1..] == [] || gaps[1] != []
  {
    forall i | 0 < i < |ws| - 1 ensures gaps[1..][i] != [] {
      assert gaps[1..][i] == gaps[i + 1];
    }
  }

  /** What a layout begins with: its first gap, or its first word when
      that gap is empty. */
  lemma LayoutStart(ws: seq<string>, gaps: seq<string>)
    requires Gaps(ws, gaps)
    requires forall i :: 0 <= i < |ws| ==> Token(ws[i])
    ensures var s := Spaced(ws, gaps);
      && (gaps[0] != [] ==> s != [] && s[0] == gaps[0][0])
      && (ws != [] && gaps[0] == [] ==> s != [] && ws[0] != [] && s[0] == ws[0][0])
  {
    if ws != [] {
      var x := gaps[0] + ws[0];
      assert Spaced(ws, gaps) == x + Spaced(ws[1..], gaps[1..]);
    }
  }

  /** Words laid out with whitespace gaps split back into those words:
      `split()` reads every such layout, whatever the whitespace, its
      amount, or the whitespace before the first and after the last word. */
  lemma {:induction false} WordsOfSpaced(ws: seq<string>, gaps: seq<string>)
    requires forall i :: 0 <= i < |ws| ==> Token(ws[i])
    requires Gaps(ws, gaps)
    ensures Words(Spaced(ws, gaps)) == ws
    decreases |ws|
  {
    if ws == [] {
      assert gaps[0] + "" == gaps[0];
      WordsAfterGap(gaps[0], "");
    } else {
      var more, gs := ws[1..], gaps[1..];
      var rest := Spaced(more, gs);
      TailGaps(ws, gaps);
      WordsOfSpaced(more, gs);
      LayoutStart(more, gs);
      assert rest == [] || IsSpace(rest[0]) by {
        if gs[0] == [] {
          assert more == [];
        }
      }
      ConcatAssoc(gaps[0], ws[0], rest);
      WordsAfterGap(gaps[0], ws[0] + rest);
      WordsOfTokenThen(ws[0], rest);
      HeadTail(ws);
    }
  }

  /** The whitespace runs `split()` discards: the one before each word of
      `Words(s)`, and the one after the last word. */
  function GapsOf(s: string): seq<string>
    decreases |s|
  {
    var t := SkipSpace(s);
    if t == [] then [s]
    else
      var n := WordLen(t);
      [s[..|s| - |t|]] + GapsOf(t[n..])
  }

  lemma TakeDrop(s: string, n: nat)
    requires n <= |s|
    ensures s == s[..n] + s[n..]
  {
  }

  /** A layout that begins with whitespace, or is empty, has a non-empty
      first gap unless it holds no word. */
  lemma FirstGap(rest: string, more: seq<string>, gs: seq<string>)
    requires forall i :: 0 <= i < |more| ==> Token(more[i])
    requires Gaps(more, gs) && Spaced(more, gs) == rest
    requires rest == [] || IsSpace(rest[0])
    ensures gs[0] != [] || more == []
  {
    LayoutStart(more, gs);
  }

  /** One more word, with the gap before it, extends a layout. */
  lemma ConsGaps(lead: string, w: string, more: seq<string>, gs: seq<string>)
    requires AllSpace(lead) && Gaps(more, gs)
    requires gs[0] != [] || more == []
    ensures Gaps([w] + more, [lead] + gs)
    ensures Spaced([w] + more, [lead] + gs) == lead + w + Spaced(more, gs)
  {
    var ws, gaps := [w] + more, [lead] + gs;
    assert forall i :: 1 <= i < |gaps| ==> gaps[i] == gs[i - 1];
    assert ws[1..] == more && gaps[1..] == gs;
  }

  /** Conversely, every string is its own words laid out with the gaps
      `GapsOf` finds, so `Words` loses only whitespace. */
  lemma {:induction false} SpacedWords(s: string)
    ensures Gaps(Words(s), GapsOf(s)) && Spaced(Words(s), GapsOf(s)) == s
    decreases |s|
  {
    var t := SkipSpace(s);
    var lead := s[..|s| - |t|];
    assert AllSpace(lead);
    if t == [] {
      assert lead == s;
    } else {
      var n := WordLen(t);
      var w, rest := t[..n], t[n..];
      var more, gs := Words(rest), GapsOf(rest);
      assert Words(s) == [w] + more;
      assert GapsOf(s) == [lead] + gs;
      SpacedWords(rest);
      FirstGap(rest, more, gs);
      ConsGaps(lead, w, more, gs);
      TakeDrop(s, |s| - |t|);
      TakeDrop(t, n);
      ConcatAssoc(lead, w, rest);
    }
  }

  // ---------------------------------------------------------------------------
  // str.split(sep) and sep.join(parts)
  // ---------------------------------------------------------------------------

  /** `pat` occurs in `s` starting at index `j`. */
  predicate OccursAt(s: string, pat: string, j: int) {
    0 <= j && j + |pat| <= |s| && s[j..j + |pat|] == pat
  }

  /** `pat` occurs nowhere in `s`. */
  predicate Free(s: string, pat: string) {
    forall j | 0 <= j <= |s| :: !OccursAt(s, pat, j)
  }

  /** Separators whose occurrences can never overlap the end of the text
      before them, so that joining and splitting are inverse.  Both `": "`
      and `"\r\n"` qualify, as does every one-character separator. */
  predicate Unbordered(sep: string) {
    |sep| == 1 || (|sep| == 2 && sep[0] != sep[1])
  }

  /** Python's `s.find(pat)`, with `None` for -1. */
  function IndexOf(s: string, pat: string): (r: Option<nat>)
    requires pat != []
    ensures r.Some? ==> OccursAt(s, pat, r.value)
    ensures r.Some? ==> forall j :: 0 <= j < r.value ==> !OccursAt(s, pat, j)
    ensures r.None? <==> Free(s, pat)
    decreases |s|
  {
    if |s| < |pat| then None
    else if s[..|pat|] == pat then Some(0)
    else
      var r' := IndexOf(s[1..], pat);
      assert forall j :: 1 <= j ==> (OccursAt(s, pat, j) <==> OccursAt(s[1..], pat, j - 1)) by {
        forall j | 1 <= j
          ensures OccursAt(s, pat, j) <==> OccursAt(s[1..], pat, j - 1)
        {
          if j + |pat| <= |s| {
            assert s[1..][j - 1..j - 1 + |pat|] == s[j..j + |pat|];
          }
        }
      }
      match r'
      case None => None
      case Some(i) => Some(i + 1)
  }

  /** The first occurrence is the one `IndexOf` reports. */
  lemma IndexOfFirst(s: string, pat: string, k: nat)
    requires pat != []
    requires OccursAt(s, pat, k)
    requires forall j :: 0 <= j < k ==> !OccursAt(s, pat, j)
    ensures IndexOf(s, pat) == Some(k)
  {
  }

  /** Python's `sep.join(parts)`. */
  function JoinOn(parts: seq<string>, sep: string): string
    decreases |parts|
  {
    if parts == [] then ""
    else if |parts| == 1 then parts[0]
    else parts[0] + sep + JoinOn(parts[1..], sep)
  }

  /** `[x] + rest` joined: `x`, the separator, then `rest` joined. */
  lemma JoinOnCons(x: string, rest: seq<string>, sep: string)
    requires |rest| >= 1
    ensures JoinOn([x] + rest, sep) == x + sep + JoinOn(rest, sep)
  {
    assert ([x] + rest)[1..] == rest;
  }

  lemma JoinTwo(a: string, b: string, sep: string)
    ensures JoinOn([a, b], sep) == a + sep + b
  {
    assert [a, b] == [a] + [b];
    JoinOnCons(a, [b], sep);
  }

  lemma JoinThree(a: string, b: string, c: string, sep: string)
    ensures JoinOn([a, b, c], sep) == a + sep + b + sep + c
  {
    assert [a, b, c] == [a] + [b, c];
    JoinOnCons(a, [b, c], sep);
    JoinTwo(b, c, sep);
  }

  /** Python's `s.split(sep)`: the pieces between the non-overlapping
      occurrences of `sep`, found left to right. */
  function SplitOn(s: string, sep: string): (parts: seq<string>)
    requires sep != []
    decreases |s|
  {
    match IndexOf(s, sep)
    case None => [s]
    case Some(i) => [s[..i]] + SplitOn(s[i + |sep|..], sep)
  }

  lemma SliceConcat(s: string, i: nat, j: nat)
    requires i <= j <= |s|
    ensures s == s[..i] + s[i..j] + s[j..]
  {
  }

  /** An occurrence inside a prefix is an occurrence in the whole string,
      at the same index. */
  lemma OccursInPrefix(s: string, i: nat, pat: string, j: int)
    requires i <= |s|
    ensures OccursAt(s[..i], pat, j) ==> OccursAt(s, pat, j)
  {
    if OccursAt(s[..i], pat, j) {
      assert s[..i][j..j + |pat|] == s[j..j + |pat|];
    }
  }

  /** Splitting yields at least one piece, no piece holds the separator, and
      joining the pieces with the separator rebuilds the string. */
  lemma {:induction false} SplitOnParts(s: string, sep: string)
    requires sep != []
    ensures var parts := SplitOn(s, sep);
      && |parts| >= 1
      && (forall i :: 0 <= i < |parts| ==> Free(parts[i], sep))
      && JoinOn(parts, sep) == s
    decreases |s|
  {
    match IndexOf(s, sep)
    case None =>
    case Some(i) =>
      var rest := s[i + |sep|..];
      SplitOnParts(rest, sep);
      var tail := SplitOn(rest, sep);
      var parts := [s[..i]] + tail;
      assert SplitOn(s, sep) == parts;
      forall j ensures !OccursAt(s[..i], sep, j) {
        OccursInPrefix(s, i, sep, j);
      }
      assert parts[1..] == tail;
      SliceConcat(s, i, i + |sep|);
  }

  /** Splitting the join of separator-free pieces gives back the pieces. */
  lemma {:induction false} SplitOnJoinOn(parts: seq<string>, sep: string)
    requires Unbordered(sep) && |parts| >= 1
    requires forall i :: 0 <= i < |parts| ==> Free(parts[i], sep)
    ensures SplitOn(JoinOn(parts, sep), sep) == parts
    decreases |parts|
  {
    var p := parts[0];
    if |parts| == 1 {
      assert Free(p, sep);
    } else {
      var rest := JoinOn(parts[1..], sep);
      var s := p + sep + rest;
      assert OccursAt(s, sep, |p|) by {
        assert s[|p|..|p| + |sep|] == sep;
      }
      forall j | 0 <= j < |p| ensures !OccursAt(s, sep, j) {
        if j + |sep| <= |p| {
          assert s[j..j + |sep|] == p[j..j + |sep|];
          assert !OccursAt(p, sep, j);
        } else {
          assert |sep| == 2 && j == |p| - 1;
          assert s[j + 1] == sep[0];
        }
      }
      IndexOfFirst(s, sep, |p|);
      assert s[..|p|] == p;
      assert s[|p| + |sep|..] == rest;
      SplitOnJoinOn(parts[1..], sep);
      assert parts == [p] + parts[1..];
    }
  }

  /** A string without the separator's first character cannot hold the separator. */
  lemma FreeOfChar(s: string, sep: string)
    requires sep != []
    requires forall k :: 0 <= k < |s| ==> s[k] != sep[0]
    ensures Free(s, sep)
  {
    forall j | 0 <= j <= |s| ensures !OccursAt(s, sep, j) {
      if j + |sep| <= |s| {
        assert s[j..j + |sep|][0] == s[j];
      }
    }
  }

  /** A string free of a one-character separator does not contain that character. */
  lemma CharOfFree(s: string, c: char)
    requires Free(s, [c])
    ensures forall k :: 0 <= k < |s| ==> s[k] != c
  {
    forall k | 0 <= k < |s| ensures s[k] != c {
      assert !OccursAt(s, [c], k);
      assert s[k..k + 1] == [s[k]];
    }
  }

  /** An occurrence of a one-character separator is an occurrence of its character. */
  lemma OccursAtChar(s: string, c: char, j: int)
    ensures OccursAt(s, [c], j) <==> 0 <= j < |s| && s[j] == c
  {
    if 0 <= j < |s| {
      assert s[j..j + 1] == [s[j]];
    }
  }

  // ---------------------------------------------------------------------------
  // rstrip('\r\n') and strip('/')
  // ---------------------------------------------------------------------------

  predicate IsLineEnd(c: char) { c == '\r' || c == '\n' }

  /** Python's `s.rstrip('\r\n')`. */
  function RStripLineEnds(s: string): (r: string)
    ensures |r| <= |s| && r == s[..|r|]
    ensures r == [] || !IsLineEnd(r[|r| - 1])
    ensures forall k :: |r| <= k < |s| ==> IsLineEnd(s[k])
    decreases |s|
  {
    if s != [] && IsLineEnd(s[|s| - 1]) then RStripLineEnds(s[..|s| - 1]) else s
  }

  /** Stripping line ends removes exactly a trailing run of `\r`/`\n`. */
  lemma {:induction false} RStripAppended(s: string, e: string)
    requires s == [] || !IsLineEnd(s[|s| - 1])
    requires forall k :: 0 <= k < |e| ==> IsLineEnd(e[k])
    ensures RStripLineEnds(s + e) == s
    decreases |e|
  {
    if e == [] {
      assert s + e == s;
    } else {
      assert (s + e)[..|s + e| - 1] == s + e[..|e| - 1];
      RStripAppended(s, e[..|e| - 1]);
    }
  }

  /** `s` without its leading copies of `c`. */
  function DropLeading(s: string, c: char): (r: string)
    ensures |r| <= |s| && r == s[|s| - |r|..]
    ensures r == [] || r[0] != c
    ensures forall k :: 0 <= k < |s| - |r| ==> s[k] == c
    decreases |s|
  {
    if s != [] && s[0] == c then
      var r := DropLeading(s[1..], c);
      assert s[1..][|s| - 1 - |r|..] == s[|s| - |r|..];
      assert forall k :: 1 <= k < |s| ==> s[k] == s[1..][k - 1];
      r
    else s
  }

  /** `s` without its trailing copies of `c`. */
  function DropTrailing(s: string, c: char): (r: string)
    ensures |r| <= |s| && r == s[..|r|]
    ensures r == [] || r[|r| - 1] != c
    ensures forall k :: |r| <= k < |s| ==> s[k] == c
    decreases |s|
  {
    if s != [] && s[|s| - 1] == c then
      var r := DropTrailing(s[..|s| - 1], c);
      assert s[..|s| - 1][..|r|] == s[..|r|];
      r
    else s
  }

  /** Python's `s.strip(c)` for one character `c`: never begins or ends with `c`. */
  function Strip(s: string, c: char): (r: string)
    ensures r == [] || (r[0] != c && r[|r| - 1] != c)
  {
    var d := DropLeading(s, c);
    var r := DropTrailing(d, c);
    assert r != [] ==> r[0] == d[0];
    r
  }

  /** Stripping `c` from a run of `c`s followed by a string that neither
      begins nor ends with `c` gives that string. */
  lemma {:induction false} StripPadded(pad: string, c: char, t: string)
    requires forall k :: 0 <= k < |pad| ==> pad[k] == c
    requires t == [] || (t[0] != c && t[|t| - 1] != c)
    ensures Strip(pad + t, c) == t
    decreases |pad|
  {
    if pad == [] {
      assert pad + t == t;
      assert DropLeading(t, c) == t;
    } else {
      assert (pad + t)[1..] == pad[1..] + t;
      StripPadded(pad[1..], c, t);
    }
  }

  // ---------------------------------------------------------------------------
  // str.lower()
  // ---------------------------------------------------------------------------

  function LowerChar(c: char): char {
    if 'A' <= c <= 'Z' then (c as int + 32) as char else c
  }

  /** `str.lower()` restricted to ASCII letters. */
  function Lower(s: string): (r: string)
    ensures |r| == |s|
  {
    seq(|s|, i requires 0 <= i < |s| => LowerChar(s[i]))
  }
}
