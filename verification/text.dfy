/** The Python string primitives the parsers are built from: `splitlines()`,
    `sep.join(...)`, `split()` with no argument, `strip(';')`, `split(':', 1)`
    and the substring test `t in s`. Lines are broken at '\n' only, and
    whitespace is the ASCII whitespace Python's `str.split()` recognises. */
module TextOps {

  // ---------------------------------------------------------------------------
  // Characters and substrings
  // ---------------------------------------------------------------------------

  /** The ASCII characters `str.split()` treats as separators:
      tab, line feed, vertical tab, form feed, carriage return,
      the four information separators 0x1C-0x1F, and space. */
  predicate IsSpace(c: char) {
    var n := c as int;
    n == 32 || 9 <= n <= 13 || 28 <= n <= 31
  }

  predicate NoSpace(w: string) {
    forall j | 0 <= j < |w| :: !IsSpace(w[j])
  }

  /** What `str.split()` can produce: a non-empty run without whitespace. */
  predicate IsToken(w: string) {
    w != [] && NoSpace(w)
  }

  /** Python's `t in s` for two strings: `t` is a prefix of `s` or of one
      of its suffixes. */
  predicate Contains(s: string, t: string)
    decreases |s|
  {
    t <= s || (s != [] && Contains(s[1..], t))
  }

  /** `Contains` holds exactly when `t` occurs in `s` at some position. */
  lemma {:induction false} ContainsAt(s: string, t: string)
    ensures Contains(s, t) <==> exists i | 0 <= i <= |s| :: t <= s[i..]
  {
    assert s[0..] == s;
    if s != [] {
      ContainsAt(s[1..], t);
      if Contains(s[1..], t) {
        var j :| 0 <= j <= |s[1..]| && t <= s[1..][j..];
        assert s[1..][j..] == s[j + 1..];
      }
      if exists i | 0 <= i <= |s| :: t <= s[i..] {
        var i :| 0 <= i <= |s| && t <= s[i..];
        if i > 0 {
          assert s[1..][i - 1..] == s[i..];
        }
      }
    }
  }

  /** The position of the first `c` in `s`, or `|s|` when there is none. */
  function IndexOfChar(s: string, c: char): (i: nat)
    ensures i <= |s|
    ensures i < |s| ==> s[i] == c
    ensures forall j | 0 <= j < i :: s[j] != c
  {
    if s == [] then 0
    else if s[0] == c then 0
    else 1 + IndexOfChar(s[1..], c)
  }

  // ---------------------------------------------------------------------------
  // Lines: splitlines() and "\n".join(...)
  // ---------------------------------------------------------------------------

  /** `s.splitlines()` for text whose only line boundary is '\n': one element
      per line, without its terminator; a final '\n' does not open an empty
      last line, and the empty text has no lines at all. */
  function SplitLines(s: string): (lines: seq<string>)
    ensures lines == [] <==> s == []
    decreases |s|
  {
    if s == [] then []
    else
      var i := IndexOfChar(s, '\n');
      if i == |s| then [s] else [s[..i]] + SplitLines(s[i + 1..])
  }

  /** No line `splitlines()` produces holds a line break. */
  lemma {:induction false} SplitLinesHaveNoBreak(s: string)
    ensures forall l | l in SplitLines(s) :: '\n' !in l
    decreases |s|
  {
    if s != [] {
      var i := IndexOfChar(s, '\n');
      if i < |s| {
        SplitLinesHaveNoBreak(s[i + 1..]);
      }
    }
  }

  /** `sep.join(parts)`. */
  function Join(parts: seq<string>, sep: string): (r: string)
    ensures parts != [] ==> parts[0] <= r
  {
    if parts == [] then ""
    else if |parts| == 1 then parts[0]
    else parts[0] + sep + Join(parts[1..], sep)
  }

  function JoinLines(lines: seq<string>): string {
    Join(lines, "\n")
  }

  lemma JoinCons(x: string, rest: seq<string>, sep: string)
    requires rest != []
    ensures Join([x] + rest, sep) == x + sep + Join(rest, sep)
  {
    assert ([x] + rest)[1..] == rest;
  }

  /** Joining lines with '\n' and splitting again gives the lines back,
      provided no line holds a '\n' and the last line is not empty
      (an empty last line would leave a trailing '\n', which splitlines drops). */
  lemma {:induction false} SplitJoinLines(lines: seq<string>)
    requires forall l | l in lines :: '\n' !in l
    requires lines == [] || lines[|lines| - 1] != ""
    ensures SplitLines(JoinLines(lines)) == lines
  {
    if |lines| == 1 {
      assert JoinLines(lines) == lines[0];
      assert lines[0] in lines;
      assert IndexOfChar(lines[0], '\n') == |lines[0]|;
    } else if |lines| > 1 {
      var x, rest := lines[0], lines[1..];
      var s := JoinLines(lines);
      assert s == x + "\n" + JoinLines(rest);
      var i := IndexOfChar(s, '\n');
      assert s[|x|] == '\n';
      assert x in lines;
      assert i == |x|;
      assert s[..i] == x;
      assert s[i + 1..] == JoinLines(rest);
      assert forall l | l in rest :: l in lines;
      SplitJoinLines(rest);
    }
  }

  /** Splitting text into lines and joining them with '\n' gives the text
      back, except for a final '\n', which is lost. */
  lemma {:induction false} JoinSplitLines(s: string)
    ensures JoinLines(SplitLines(s)) == DropFinalBreak(s)
    decreases |s|
  {
    if '\n' in s {
      var i := IndexOfChar(s, '\n');
      var head, t := s[..i], s[i + 1..];
      assert s == head + "\n" + t;
      JoinSplitLines(t);
      JoinSplitLinesStep(head, t);
    } else if s != [] {
      assert IndexOfChar(s, '\n') == |s|;
    }
  }

  /** `s` without its final '\n', if it has one. */
  function DropFinalBreak(s: string): string {
    if s != [] && s[|s| - 1] == '\n' then s[..|s| - 1] else s
  }

  lemma JoinSplitLinesStep(head: string, t: string)
    requires '\n' !in head
    requires JoinLines(SplitLines(t)) == DropFinalBreak(t)
    ensures JoinLines(SplitLines(head + "\n" + t)) == DropFinalBreak(head + "\n" + t)
  {
    SplitLinesBreak(head, t);
    if t == [] {
      assert (head + "\n" + t)[..|head|] == head;
    } else {
      JoinCons(head, SplitLines(t), "\n");
      DropFinalBreakAfter(head + "\n", t);
    }
  }

  lemma DropFinalBreakAfter(p: string, t: string)
    requires t != []
    ensures DropFinalBreak(p + t) == p + DropFinalBreak(t)
  {
    if t[|t| - 1] == '\n' {
      assert (p + t)[..|p + t| - 1] == p + t[..|t| - 1];
    }
  }

  /** The first `c` in `a + [c] + b`, when `a` has none, is right after `a`. */
  lemma {:induction false} FirstCharAt(a: string, c: char, b: string)
    requires c !in a
    ensures IndexOfChar(a + [c] + b, c) == |a|
  {
    if a != [] {
      assert (a + [c] + b)[1..] == a[1..] + [c] + b;
      FirstCharAt(a[1..], c, b);
    }
  }

  /** A line without '\n' followed by '\n' is the first line of the text. */
  lemma SplitLinesBreak(head: string, t: string)
    requires '\n' !in head
    ensures SplitLines(head + "\n" + t) == [head] + SplitLines(t)
  {
    var s := head + "\n" + t;
    FirstCharAt(head, '\n', t);
    assert s[..|head|] == head;
    assert s[|head| + 1..] == t;
  }

  // ---------------------------------------------------------------------------
  // Words: str.split() with no argument and " ".join(...)
  // ---------------------------------------------------------------------------

  /** The length of the run of non-whitespace characters that starts `s`. */
  function TokenLen(s: string): nat {
    if s == [] || IsSpace(s[0]) then 0 else 1 + TokenLen(s[1..])
  }

  /** `TokenLen` measures the whole run: no whitespace inside it, and
      whitespace or the end of `s` right after it. */
  lemma {:induction false} TokenLenIsRun(s: string)
    ensures TokenLen(s) <= |s|
    ensures forall j | 0 <= j < TokenLen(s) :: !IsSpace(s[j])
    ensures TokenLen(s) < |s| ==> IsSpace(s[TokenLen(s)])
  {
    if s != [] && !IsSpace(s[0]) {
      TokenLenIsRun(s[1..]);
    }
  }

  /** `s.split()`: the maximal runs of non-whitespace characters, in order;
      leading, trailing and repeated whitespace produce no empty tokens. */
  function Words(s: string): seq<string>
    decreases |s|
  {
    if s == [] then []
    else if IsSpace(s[0]) then Words(s[1..])
    else
      var n := TokenLen(s);
      TokenLenIsRun(s);
      [s[..n]] + Words(s[n..])
  }

  /** Every piece `split()` produces is a non-empty run without whitespace. */
  lemma {:induction false} WordsAreTokens(s: string)
    ensures forall w | w in Words(s) :: IsToken(w)
    decreases |s|
  {
    if s != [] {
      if IsSpace(s[0]) {
        WordsAreTokens(s[1..]);
      } else {
        var n := TokenLen(s);
        TokenLenIsRun(s);
        WordsAreTokens(s[n..]);
      }
    }
  }

  lemma {:induction false} TokenLenOfToken(w: string, rest: string)
    requires IsToken(w)
    requires rest == [] || IsSpace(rest[0])
    ensures TokenLen(w + rest) == |w|
  {
    assert (w + rest)[1..] == w[1..] + rest;
    if |w| > 1 {
      TokenLenOfToken(w[1..], rest);
    } else {
      assert w[1..] + rest == rest;
    }
  }

  lemma WordsOfTokenThen(w: string, rest: string)
    requires IsToken(w)
    requires rest == [] || IsSpace(rest[0])
    ensures Words(w + rest) == [w] + Words(rest)
  {
    TokenLenOfToken(w, rest);
    var s := w + rest;
    assert s[..|w|] == w;
    assert s[|w|..] == rest;
  }

  /** Splitting tokens joined by single spaces gives the tokens back. */
  lemma {:induction false} WordsJoin(ws: seq<string>)
    requires forall w | w in ws :: IsToken(w)
    ensures Words(Join(ws, " ")) == ws
  {
    if |ws| == 1 {
      WordsOfTokenThen(ws[0], "");
      assert ws[0] + "" == ws[0];
    } else if |ws| > 1 {
      var tail := " " + Join(ws[1..], " ");
      assert Join(ws, " ") == ws[0] + tail;
      WordsOfTokenThen(ws[0], tail);
      assert tail[1..] == Join(ws[1..], " ");
      assert forall w | w in ws[1..] :: w in ws;
      WordsJoin(ws[1..]);
    }
  }

  /** A line made only of whitespace, or no characters at all. */
  predicate NoVisibleText(line: string) {
    forall j | 0 <= j < |line| :: IsSpace(line[j])
  }

  lemma {:induction false} WordsOfBlank(line: string)
    requires NoVisibleText(line)
    ensures Words(line) == []
  {
    if line != [] {
      WordsOfBlank(line[1..]);
    }
  }

  /** The token at the start of `a + r` is the one at the start of `a` when
      `r` is empty or starts with whitespace. */
  lemma {:induction false} TokenLenBeforeSpace(a: string, r: string)
    requires r == [] || IsSpace(r[0])
    ensures TokenLen(a + r) == TokenLen(a)
  {
    if a == [] {
      assert a + r == r;
    } else if !IsSpace(a[0]) {
      assert (a + r)[1..] == a[1..] + r;
      TokenLenBeforeSpace(a[1..], r);
    }
  }

  /** `split()` breaks at every whitespace character, whatever surrounds it:
      the tokens of `a + [c] + b` are those of `a` followed by those of `b`.
      With `WordsOfBlank` and `WordsOfTokenThen` this fixes `Words` on every
      text: runs of whitespace, tabs and leading or trailing whitespace
      separate tokens and add none. */
  lemma {:induction false} WordsAtSpace(a: string, c: char, b: string)
    requires IsSpace(c)
    ensures Words(a + [c] + b) == Words(a) + Words(b)
    decreases |a|
  {
    var s := a + [c] + b;
    if a == [] {
      assert s[1..] == b;
    } else if IsSpace(a[0]) {
      assert s[1..] == a[1..] + [c] + b;
      WordsAtSpace(a[1..], c, b);
    } else {
      var n := TokenLen(a);
      TokenLenBeforeSpace(a, [c] + b);
      assert s == a + ([c] + b);
      TokenLenIsRun(a);
      assert s[..n] == a[..n];
      assert s[n..] == a[n..] + [c] + b;
      WordsAtSpace(a[n..], c, b);
    }
  }

  /** Whitespace in front of a text adds no tokens. */
  lemma {:induction false} WordsAfterBlank(pad: string, t: string)
    requires NoVisibleText(pad)
    ensures Words(pad + t) == Words(t)
  {
    if pad == [] {
      assert pad + t == t;
    } else {
      assert (pad + t)[0] == pad[0] && IsSpace(pad[0]);
      assert (pad + t)[1..] == pad[1..] + t;
      assert NoVisibleText(pad[1..]) by {
        forall j | 0 <= j < |pad| - 1 ensures IsSpace(pad[1..][j]) {
          assert pad[1..][j] == pad[j + 1];
        }
      }
      WordsAfterBlank(pad[1..], t);
    }
  }

  /** Tokens laid out in columns, as `netstat`, `docker images` and
      `query user` print them: `pads[0]` before the first token, `pads[k]`
      between tokens `k - 1` and `k`, and the last pad after the last token. */
  function Padded(ws: seq<string>, pads: seq<string>): string
    requires |pads| == |ws| + 1
  {
    if ws == [] then pads[0] else pads[0] + ws[0] + Padded(ws[1..], pads[1..])
  }

  /** Padding that keeps a line one line: whitespace other than '\n' only,
      and at least one character between two tokens. */
  predicate PadsOk(ws: seq<string>, pads: seq<string>) {
    && |pads| == |ws| + 1
    && (forall k | 0 <= k < |pads| :: NoVisibleText(pads[k]) && '\n' !in pads[k])
    && (forall k | 1 <= k < |ws| :: pads[k] != [])
  }

  lemma PadsOkTail(ws: seq<string>, pads: seq<string>)
    requires ws != [] && PadsOk(ws, pads)
    ensures PadsOk(ws[1..], pads[1..])
  {
    forall k | 0 <= k < |pads| - 1
      ensures NoVisibleText(pads[1..][k]) && '\n' !in pads[1..][k]
    {
      assert pads[1..][k] == pads[k + 1];
    }
    forall k | 1 <= k < |ws| - 1
      ensures pads[1..][k] != []
    {
      assert pads[1..][k] == pads[k + 1];
    }
  }

  /** Splitting a padded line gives back its tokens, however wide its
      columns. */
  lemma {:induction false} WordsOfPadded(ws: seq<string>, pads: seq<string>)
    requires forall w | w in ws :: IsToken(w)
    requires PadsOk(ws, pads)
    ensures Words(Padded(ws, pads)) == ws
  {
    if ws == [] {
      WordsOfBlank(pads[0]);
    } else {
      PadsOkTail(ws, pads);
      var rest := Padded(ws[1..], pads[1..]);
      assert Padded(ws, pads) == pads[0] + (ws[0] + rest);
      WordsAfterBlank(pads[0], ws[0] + rest);
      assert rest == [] || IsSpace(rest[0]) by {
        if |ws| > 1 {
          assert rest == pads[1] + (ws[1] + Padded(ws[2..], pads[2..])) by {
            assert ws[1..][1..] == ws[2..] && pads[1..][1..] == pads[2..];
          }
          assert pads[1] != [];
        }
      }
      assert ws[0] in ws;
      WordsOfTokenThen(ws[0], rest);
      assert forall w | w in ws[1..] :: w in ws;
      WordsOfPadded(ws[1..], pads[1..]);
    }
  }

  /** A padded line of tokens is one line, and not empty when it holds a
      token. */
  lemma {:induction false} PaddedIsOneLine(ws: seq<string>, pads: seq<string>)
    requires forall w | w in ws :: IsToken(w)
    requires PadsOk(ws, pads)
    ensures '\n' !in Padded(ws, pads)
    ensures ws != [] ==> Padded(ws, pads) != ""
  {
    if ws != [] {
      PadsOkTail(ws, pads);
      assert ws[0] in ws;
      TokenHasNoNewline(ws[0]);
      assert forall w | w in ws[1..] :: w in ws;
      PaddedIsOneLine(ws[1..], pads[1..]);
      assert Padded(ws, pads) == pads[0] + ws[0] + Padded(ws[1..], pads[1..]);
    }
  }

  /** A token has no line break, since '\n' is whitespace. */
  lemma TokenHasNoNewline(w: string)
    requires IsToken(w)
    ensures '\n' !in w
  {
  }

  // ---------------------------------------------------------------------------
  // strip(c) and split(c, 1)
  // ---------------------------------------------------------------------------

  /** `s.lstrip(c)`: `s` without its leading run of `c`. */
  function StripLeft(s: string, c: char): string {
    if s != [] && s[0] == c then StripLeft(s[1..], c) else s
  }

  /** `StripLeft` removes a leading run of `c`, and all of it. */
  lemma {:induction false} StripLeftDrops(s: string, c: char)
    ensures var r := StripLeft(s, c);
      && |r| <= |s| && r == s[|s| - |r|..]
      && (forall j | 0 <= j < |s| - |r| :: s[j] == c)
      && (r == [] || r[0] != c)
  {
    if s != [] && s[0] == c {
      var t := s[1..];
      StripLeftDrops(t, c);
      var r := StripLeft(t, c);
      assert StripLeft(s, c) == r;
      assert t[|t| - |r|..] == s[|s| - |r|..];
      forall j | 0 <= j < |s| - |r|
        ensures s[j] == c
      {
        if j > 0 { assert s[j] == t[j - 1]; }
      }
    }
  }

  /** `s.rstrip(c)`: `s` without its trailing run of `c`. */
  function StripRight(s: string, c: char): string {
    if s != [] && s[|s| - 1] == c then StripRight(s[..|s| - 1], c) else s
  }

  /** `StripRight` removes a trailing run of `c`, and all of it. */
  lemma {:induction false} StripRightDrops(s: string, c: char)
    ensures var r := StripRight(s, c);
      && |r| <= |s| && r == s[..|r|]
      && (forall j | |r| <= j < |s| :: s[j] == c)
      && (r == [] || r[|r| - 1] != c)
  {
    if s != [] && s[|s| - 1] == c {
      StripRightDrops(s[..|s| - 1], c);
    }
  }

  /** `s.strip(c)`: the slice of `s` left after removing every leading and
      every trailing `c`. */
  function Strip(s: string, c: char): (r: string)
    ensures r == [] || (r[0] != c && r[|r| - 1] != c)
  {
    StripLeftDrops(s, c);
    StripRightDrops(StripLeft(s, c), c);
    StripRight(StripLeft(s, c), c)
  }

  /** `Strip` leaves a contiguous slice of its input, and everything it
      removed was `c`. */
  lemma StripIsSlice(s: string, c: char)
    ensures |StripLeft(s, c)| <= |s|
    ensures var r, i := Strip(s, c), |s| - |StripLeft(s, c)|;
      && i + |r| <= |s|
      && r == s[i..i + |r|]
      && (forall j | 0 <= j < i :: s[j] == c)
      && (forall j | i + |r| <= j < |s| :: s[j] == c)
  {
    var l := StripLeft(s, c);
    StripLeftDrops(s, c);
    StripRightDrops(l, c);
    PrefixOfSuffix(s, |s| - |l|, StripRight(l, c), c);
  }

  /** A prefix `r` of `s[i..]` whose remainder is all `c` is the slice
      `s[i..i + |r|]`, followed in `s` by `c` only. */
  lemma PrefixOfSuffix(s: string, i: nat, r: string, c: char)
    requires i <= |s| && r <= s[i..]
    requires forall j | |r| <= j < |s| - i :: s[i..][j] == c
    ensures i + |r| <= |s| && r == s[i..i + |r|]
    ensures forall j | i + |r| <= j < |s| :: s[j] == c
  {
    forall j | i + |r| <= j < |s|
      ensures s[j] == c
    {
      assert s[i..][j - i] == c;
    }
  }

  /** Stripping twice is the same as stripping once. */
  lemma StripIdempotent(s: string, c: char)
    ensures Strip(Strip(s, c), c) == Strip(s, c)
  {
    var r := Strip(s, c);
    StripLeftDrops(s, c);
    StripRightDrops(StripLeft(s, c), c);
    assert StripLeft(r, c) == r;
    assert StripRight(r, c) == r;
  }

  /** `s.split(c, 1)`: the text before the first `c` and the text after it,
      or `[s]` when `c` does not occur. */
  function SplitOnce(s: string, c: char): (parts: seq<string>)
    ensures c in s ==> |parts| == 2 && c !in parts[0] && parts[0] + [c] + parts[1] == s
    ensures c !in s ==> parts == [s]
  {
    var i := IndexOfChar(s, c);
    if i == |s| then [s]
    else
      assert s == s[..i] + [c] + s[i + 1..];
      [s[..i], s[i + 1..]]
  }
}
