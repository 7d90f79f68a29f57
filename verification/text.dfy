/** Character and string rules the launcher relies on through Python's `str` methods:
    `isdigit` and `int` on ASCII digits, `strip`, `split` and `in`. */
module Text {

  // ---------------------------------------------------------------- digits

  predicate IsDigit(c: char) {
    '0' <= c <= '9'
  }

  predicate AllDigits(s: string) {
    forall i :: 0 <= i < |s| ==> IsDigit(s[i])
  }

  /** `str.isdigit()` restricted to ASCII: true exactly for non-empty runs of digits. */
  predicate IsDigits(s: string) {
    |s| > 0 && AllDigits(s)
  }

  /** `int(s)` for a string of ASCII digits (leading zeros allowed). */
  function DecimalValue(s: string): nat
    requires AllDigits(s)
  {
    if |s| == 0 then 0
    else 10 * DecimalValue(s[..|s| - 1]) + (s[|s| - 1] as int - '0' as int)
  }

  function DigitChar(d: nat): (c: char)
    requires d < 10
    ensures IsDigit(c) && c as int - '0' as int == d
  {
    ('0' as int + d) as char
  }

  /** `str(n)` for a natural number: its shortest decimal spelling. */
  function NatToString(n: nat): string
  {
    if n < 10 then [DigitChar(n)] else NatToString(n / 10) + [DigitChar(n % 10)]
  }

  /** Spelling a number and reading it back gives the number, and the spelling passes
      the `isdigit` test the launcher applies before calling `int`. */
  lemma {:induction false} DecimalRoundTrip(n: nat)
    ensures IsDigits(NatToString(n))
    ensures DecimalValue(NatToString(n)) == n
  {
    if n >= 10 {
      DecimalRoundTrip(n / 10);
      var s := NatToString(n);
      assert s[..|s| - 1] == NatToString(n / 10);
    }
  }

  // ------------------------------------------------------------ whitespace

  /** Python's `str.isspace` for one character: the characters `strip()` and `split()`
      without arguments treat as whitespace. */
  predicate IsSpace(c: char) {
    || '\t' <= c <= '\r'
    || '\U{1C}' <= c <= ' '
    || c == '\U{85}' || c == '\U{A0}' || c == '\U{1680}'
    || '\U{2000}' <= c <= '\U{200A}'
    || c == '\U{2028}' || c == '\U{2029}' || c == '\U{202F}' || c == '\U{205F}'
    || c == '\U{3000}'
  }

  predicate NoSpace(s: string) {
    forall i :: 0 <= i < |s| ==> !IsSpace(s[i])
  }

  lemma NoSpaceConcat(a: string, b: string)
    requires NoSpace(a) && NoSpace(b)
    ensures NoSpace(a + b)
  {
    forall i | 0 <= i < |a + b| ensures !IsSpace((a + b)[i]) {
      if i >= |a| {
        assert (a + b)[i] == b[i - |a|];
      }
    }
  }

  /** A token `split()` can produce: non-empty and free of whitespace. */
  predicate IsWord(s: string) {
    |s| > 0 && NoSpace(s)
  }

  /** Number of whitespace characters at the start of `s`. */
  function LeadingSpace(s: string): (n: nat)
    ensures n <= |s|
    ensures forall i :: 0 <= i < n ==> IsSpace(s[i])
    ensures n < |s| ==> !IsSpace(s[n])
  {
    if |s| > 0 && IsSpace(s[0]) then 1 + LeadingSpace(s[1..]) else 0
  }

  /** Number of whitespace characters at the end of `s`. */
  function TrailingSpace(s: string): (n: nat)
    ensures n <= |s|
    ensures forall i :: |s| - n <= i < |s| ==> IsSpace(s[i])
    ensures n < |s| ==> !IsSpace(s[|s| - 1 - n])
  {
    if |s| > 0 && IsSpace(s[|s| - 1]) then 1 + TrailingSpace(s[..|s| - 1]) else 0
  }

  /** `str.strip()`: drop whitespace from both ends. */
  function Strip(s: string): string
  {
    var t := s[LeadingSpace(s)..];
    t[..|t| - TrailingSpace(t)]
  }

  /** `strip()` removes whitespace only, and only at the two ends: the result is the
      slice `s[a..b]` with nothing but whitespace outside it, and it neither starts
      nor ends with whitespace. */
  lemma StripSlice(s: string) returns (a: nat, b: nat)
    ensures a <= b <= |s| && Strip(s) == s[a..b]
    ensures forall i :: 0 <= i < a ==> IsSpace(s[i])
    ensures forall i :: b <= i < |s| ==> IsSpace(s[i])
    ensures a < b ==> !IsSpace(s[a]) && !IsSpace(s[b - 1])
  {
    a := LeadingSpace(s);
    var t := s[a..];
    var k := TrailingSpace(t);
    b := a + |t| - k;
    assert Strip(s) == t[..|t| - k];
    assert t[..|t| - k] == s[a..b];
    assert forall i :: b <= i < |s| ==> s[i] == t[i - a];
    assert a < b ==> s[a] == t[0] && s[b - 1] == t[|t| - 1 - k];
  }

  /** Stripping twice is stripping once. */
  lemma StripIdempotent(s: string)
    ensures Strip(Strip(s)) == Strip(s)
  {
    var a, b := StripSlice(s);
    var r := Strip(s);
    if |r| > 0 {
      assert LeadingSpace(r) == 0;
      assert TrailingSpace(r) == 0;
    }
  }

  // -------------------------------------------------------------- contains

  predicate OccursAt(s: string, t: string, i: int) {
    0 <= i && i + |t| <= |s| && s[i..i + |t|] == t
  }

  /** Python's `t in s` for strings. */
  predicate Contains(s: string, t: string) {
    exists i :: 0 <= i <= |s| && OccursAt(s, t, i)
  }

  /** Stripping never destroys an occurrence of a whitespace-free, non-empty text. */
  lemma StripKeepsWord(s: string, t: string)
    requires IsWord(t) && Contains(s, t)
    ensures Contains(Strip(s), t)
  {
    var i :| 0 <= i <= |s| && OccursAt(s, t, i);
    var a, b := StripSlice(s);
    assert s[i..i + |t|][0] == s[i] && s[i..i + |t|][|t| - 1] == s[i + |t| - 1];
    assert !IsSpace(s[i]) && !IsSpace(s[i + |t| - 1]);
    assert a <= i;
    assert i + |t| <= b;
    assert OccursAt(Strip(s), t, i - a) by {
      assert Strip(s)[i - a..i - a + |t|] == s[i..i + |t|];
    }
  }

  // ---------------------------------------------------------- split / join

  /** Length of the run of non-whitespace characters at the start of `s`. */
  function WordLen(s: string): (n: nat)
    ensures n <= |s|
    ensures forall i :: 0 <= i < n ==> !IsSpace(s[i])
    ensures n < |s| ==> IsSpace(s[n])
  {
    if |s| > 0 && !IsSpace(s[0]) then 1 + WordLen(s[1..]) else 0
  }

  /** `str.split()` without arguments: the maximal whitespace-free runs, in order. */
  function Split(s: string): (r: seq<string>)
    ensures forall i :: 0 <= i < |r| ==> IsWord(r[i])
    decreases |s|
  {
    if |s| == 0 then []
    else if IsSpace(s[0]) then Split(s[1..])
    else
      var n := WordLen(s);
      [s[..n]] + Split(s[n..])
  }

  /** `" ".join(ws)`. */
  function JoinSpaced(ws: seq<string>): string
  {
    if |ws| == 0 then ""
    else if |ws| == 1 then ws[0]
    else ws[0] + " " + JoinSpaced(ws[1..])
  }

  lemma WordLenOfWord(w: string, rest: string)
    requires IsWord(w)
    requires |rest| == 0 || IsSpace(rest[0])
    ensures WordLen(w + rest) == |w|
  {
    var s := w + rest;
    assert forall i :: 0 <= i < |w| ==> !IsSpace(s[i]);
    assert |w| < |s| ==> IsSpace(s[|w|]);
  }

  /** Splitting words joined by single spaces gives the words back. */
  lemma {:induction false} SplitJoin(ws: seq<string>)
    requires forall i :: 0 <= i < |ws| ==> IsWord(ws[i])
    ensures Split(JoinSpaced(ws)) == ws
  {
    if |ws| == 0 {
    } else if |ws| == 1 {
      var w := ws[0];
      WordLenOfWord(w, "");
      assert w + "" == w;
      assert w[|w|..] == "";
    } else {
      var w := ws[0];
      var rest := " " + JoinSpaced(ws[1..]);
      var s := JoinSpaced(ws);
      assert s == w + rest;
      WordLenOfWord(w, rest);
      assert s[..|w|] == w;
      assert s[|w|..] == rest;
      assert Split(rest) == Split(JoinSpaced(ws[1..])) by {
        assert rest[1..] == JoinSpaced(ws[1..]);
      }
      SplitJoin(ws[1..]);
      assert ws == [w] + ws[1..];
    }
  }

  /** The run length is fixed by where the run stops. */
  lemma WordLenUnique(s: string, n: nat)
    requires n <= |s| && forall i :: 0 <= i < n ==> !IsSpace(s[i])
    requires n < |s| ==> IsSpace(s[n])
    ensures WordLen(s) == n
  {
  }

  /** Whitespace in front of a string adds no token. */
  lemma {:induction false} SplitSkipsSpace(g: string, y: string)
    requires forall i :: 0 <= i < |g| ==> IsSpace(g[i])
    ensures Split(g + y) == Split(y)
    decreases |g|
  {
    if |g| > 0 {
      assert (g + y)[0] == g[0];
      assert (g + y)[1..] == g[1..] + y;
      assert Split(g + y) == Split((g + y)[1..]);
      SplitSkipsSpace(g[1..], y);
    } else {
      assert g + y == y;
    }
  }

  /** Text made only of whitespace has no tokens. */
  lemma SplitBlank(g: string)
    requires forall i :: 0 <= i < |g| ==> IsSpace(g[i])
    ensures Split(g) == []
  {
    SplitSkipsSpace(g, "");
    assert g + "" == g;
  }

  /** A single word is its own only token. */
  lemma SplitWord(w: string)
    requires IsWord(w)
    ensures Split(w) == [w]
  {
    SplitJoin([w]);
  }

  /** Any non-empty run of whitespace, of any length and kind, separates tokens: the
      tokens of `x + g + y` are those of `x` followed by those of `y`. With
      `SplitBlank` and `SplitWord` this fixes the tokens of every string. */
  lemma {:induction false} SplitGap(x: string, g: string, y: string)
    requires |g| > 0 && forall i :: 0 <= i < |g| ==> IsSpace(g[i])
    ensures Split(x + g + y) == Split(x) + Split(y)
    decreases |x|
  {
    if |x| == 0 {
      assert x + g + y == g + y;
      SplitSkipsSpace(g, y);
    } else if IsSpace(x[0]) {
      SplitGap(x[1..], g, y);
      SplitGapSpaceStep(x, g, y);
    } else {
      SplitUnfold(x);
      SplitGap(x[WordLen(x)..], g, y);
      SplitGapWordStep(x, g, y);
    }
  }

  /** The step of `SplitGap` past a leading space of `x`. */
  lemma SplitGapSpaceStep(x: string, g: string, y: string)
    requires |x| > 0 && IsSpace(x[0])
    requires Split(x[1..] + g + y) == Split(x[1..]) + Split(y)
    ensures Split(x + g + y) == Split(x) + Split(y)
  {
    var t := g + y;
    Regroup(x, g, y);
    Regroup(x[1..], g, y);
    ConcatSlices(x, t, 1);
    assert (x + t)[0] == x[0];
    SplitUnfoldSpace(x + t);
    SplitUnfoldSpace(x);
  }

  /** Leading whitespace is skipped. */
  lemma SplitUnfoldSpace(s: string)
    requires |s| > 0 && IsSpace(s[0])
    ensures Split(s) == Split(s[1..])
  {
  }

  /** The step of `SplitGap` past the first run of `x`. */
  lemma SplitGapWordStep(x: string, g: string, y: string)
    requires |x| > 0 && !IsSpace(x[0]) && |g| > 0 && IsSpace(g[0])
    requires WordLen(x) <= |x|
    requires Split(x[WordLen(x)..] + g + y) == Split(x[WordLen(x)..]) + Split(y)
    ensures Split(x + g + y) == Split(x) + Split(y)
  {
    var n := WordLen(x);
    var t := g + y;
    Regroup(x, g, y);
    Regroup(x[n..], g, y);
    WordLenBeforeGap(x, g, y);
    ConcatSlices(x, t, n);
    assert (x + t)[0] == x[0];
    SplitUnfold(x + t);
    SplitUnfold(x);
    Regroup([x[..n]], Split(x[n..]), Split(y));
  }

  lemma ConcatSlices<T>(x: seq<T>, t: seq<T>, n: int)
    requires 0 <= n <= |x|
    ensures (x + t)[..n] == x[..n] && (x + t)[n..] == x[n..] + t
  {
  }

  lemma WordLenBeforeGap(x: string, g: string, y: string)
    requires |x| > 0 && |g| > 0 && IsSpace(g[0])
    ensures WordLen(x + g + y) == WordLen(x)
  {
    var s := x + g + y;
    var n := WordLen(x);
    assert forall i :: 0 <= i < n ==> s[i] == x[i];
    assert s[|x|] == g[0];
    assert n < |x| ==> s[n] == x[n];
    WordLenUnique(s, n);
  }

  /** The tokens of text starting with a non-space: its first run, then the rest. */
  lemma SplitUnfold(s: string)
    requires |s| > 0 && !IsSpace(s[0])
    ensures WordLen(s) > 0
    ensures Split(s) == [s[..WordLen(s)]] + Split(s[WordLen(s)..])
    ensures IsWord(s[..WordLen(s)])
    ensures |s[WordLen(s)..]| == 0 || IsSpace(s[WordLen(s)..][0])
    ensures s == s[..WordLen(s)] + s[WordLen(s)..]
  {
    var n := WordLen(s);
    assert forall i :: 0 <= i < n ==> s[..n][i] == s[i];
  }

  lemma Regroup<T>(x: seq<T>, y: seq<T>, z: seq<T>)
    ensures x + (y + z) == (x + y) + z
  {
  }

  /** A word followed by nothing or by whitespace is the first token. */
  lemma SplitWordThen(w: string, rest: string)
    requires IsWord(w)
    requires |rest| == 0 || IsSpace(rest[0])
    ensures Split(w + rest) == [w] + Split(rest)
  {
    var s := w + rest;
    assert s[0] == w[0];
    WordLenOfWord(w, rest);
    assert s[..|w|] == w;
    assert s[|w|..] == rest;
  }

  /** `strip()` never changes the tokens. */
  lemma SplitStrip(s: string)
    ensures Split(Strip(s)) == Split(s)
  {
    var a, b := StripSlice(s);
    var m := s[a..b];
    StripPieces(s, a, b);
    SplitSkipsSpace(s[..a], m + s[b..]);
    SplitDropsTrailing(m, s[b..]);
  }

  lemma StripPieces(s: string, a: nat, b: nat)
    requires a <= b <= |s|
    requires forall i :: 0 <= i < a ==> IsSpace(s[i])
    requires forall i :: b <= i < |s| ==> IsSpace(s[i])
    ensures s == s[..a] + (s[a..b] + s[b..])
    ensures forall i :: 0 <= i < |s[..a]| ==> IsSpace(s[..a][i])
    ensures forall i :: 0 <= i < |s[b..]| ==> IsSpace(s[b..][i])
  {
    assert forall i :: 0 <= i < |s[b..]| ==> s[b..][i] == s[b + i];
  }

  /** Trailing whitespace adds no token. */
  lemma SplitDropsTrailing(m: string, g: string)
    requires forall i :: 0 <= i < |g| ==> IsSpace(g[i])
    ensures Split(m + g) == Split(m)
  {
    if |g| > 0 {
      SplitGap(m, g, "");
      assert m + g + "" == m + g;
      assert Split(m) + Split("") == Split(m);
    } else {
      assert m + g == m;
    }
  }

  /** Words joined by single spaces neither start nor end with whitespace. */
  lemma {:induction false} JoinSpacedEnds(ws: seq<string>)
    requires |ws| > 0 && forall i :: 0 <= i < |ws| ==> IsWord(ws[i])
    ensures var j := JoinSpaced(ws);
            |j| > 0 && !IsSpace(j[0]) && !IsSpace(j[|j| - 1])
  {
    assert IsWord(ws[0]) && IsWord(ws[|ws| - 1]);
    if |ws| > 1 {
      var rest := ws[1..];
      JoinSpacedEnds(rest);
      var j := JoinSpaced(ws);
      var jr := JoinSpaced(rest);
      assert j == ws[0] + " " + jr;
      assert j[0] == ws[0][0];
      assert j[|j| - 1] == jr[|jr| - 1];
    }
  }

  /** Text that neither starts nor ends with whitespace is its own `strip()`. */
  lemma StripUnspaced(s: string)
    requires |s| > 0 ==> !IsSpace(s[0]) && !IsSpace(s[|s| - 1])
    ensures Strip(s) == s
  {
    assert LeadingSpace(s) == 0;
    assert s[0..] == s;
    assert TrailingSpace(s) == 0;
  }

  /** One trailing space is stripped away. */
  lemma StripTrailingSpace(s: string)
    requires |s| > 0 && !IsSpace(s[0]) && !IsSpace(s[|s| - 1])
    ensures Strip(s + " ") == s
  {
    var t := s + " ";
    assert t[0] == s[0];
    assert LeadingSpace(t) == 0;
    assert t[0..] == t;
    assert t[..|t| - 1] == s;
    assert TrailingSpace(s) == 0;
    assert TrailingSpace(t) == 1;
  }

  /** Words joined by single spaces are their own `strip()`. */
  lemma StripJoined(ws: seq<string>)
    requires forall i :: 0 <= i < |ws| ==> IsWord(ws[i])
    ensures Strip(JoinSpaced(ws)) == JoinSpaced(ws)
    ensures |ws| > 0 ==> Strip(JoinSpaced(ws) + " ") == JoinSpaced(ws)
  {
    if |ws| > 0 {
      JoinSpacedEnds(ws);
      StripTrailingSpace(JoinSpaced(ws));
    }
    StripUnspaced(JoinSpaced(ws));
  }

  /** Two words put in front of a joined list, each followed by one space, and then
      stripped: all of them joined by single spaces. */
  lemma StripTwoInFront(x: string, y: string, ws: seq<string>)
    requires IsWord(x) && IsWord(y) && forall i :: 0 <= i < |ws| ==> IsWord(ws[i])
    ensures Strip(x + " " + y + " " + JoinSpaced(ws)) == JoinSpaced([x, y] + ws)
  {
    var ext := [x, y] + ws;
    assert forall i :: 0 <= i < |ext| ==> IsWord(ext[i]);
    StripJoined(ext);
    if |ws| > 0 {
      JoinTwoInFront(x, y, ws);
    } else {
      JoinTwoAlone(x, y, ws);
    }
  }

  lemma JoinTwoInFront(x: string, y: string, ws: seq<string>)
    requires |ws| > 0
    ensures x + " " + y + " " + JoinSpaced(ws) == JoinSpaced([x, y] + ws)
  {
    var j := JoinSpaced(ws);
    assert [x, y] + ws == [x] + ([y] + ws);
    JoinSpacedCons(x, [y] + ws);
    JoinSpacedCons(y, ws);
    Regroup(x + " ", y + " ", j);
    Regroup(x + " ", y, " ");
  }

  /** One more word in front of a non-empty joined list. */
  lemma JoinSpacedCons(w: string, ws: seq<string>)
    requires |ws| > 0
    ensures JoinSpaced([w] + ws) == (w + " ") + JoinSpaced(ws)
  {
    assert ([w] + ws)[0] == w && ([w] + ws)[1..] == ws;
  }

  lemma JoinTwoAlone(x: string, y: string, ws: seq<string>)
    requires |ws| == 0
    ensures x + " " + y + " " + JoinSpaced(ws) == JoinSpaced([x, y] + ws) + " "
  {
    assert [x, y] + ws == [x, y];
    assert [x, y][1..] == [y];
    assert JoinSpaced([x, y]) == x + " " + y;
    assert x + " " + y + " " + "" == x + " " + y + " ";
  }
}
