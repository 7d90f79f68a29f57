/** `set_memory(gb)`: validate a gigabyte count, then rewrite the Java arguments so that
    every `-Xmx<digits>G` and `-Xms<digits>G` flag names the new size, adding both flags
    in front when there is no `-Xmx` at all.

    `re.sub(r"-Xmx\d+G", repl, s)` is modelled as a left-to-right scan, with `\d` read
    as the ASCII digits only (Python's `\d` on `str` also takes other Unicode decimal
    digits): a scan that, at each position, either matches the whole pattern there
    (greedy `\d+`; no backtracking is ever useful because `G` is not a digit) and emits
    the replacement, or emits the character and moves one position on. */
module MemoryArgs {
  import opened Wrappers
  import opened Text
  import opened LauncherConfig

  const MaxPrefix: string := "-Xmx"
  const MinPrefix: string := "-Xms"

  /** What the two prefixes have in common and the proofs rely on: four characters, a
      leading `-`, and after it no `-`, digit or whitespace. */
  predicate IsFlagPrefix(p: string) {
    && |p| == 4 && p[0] == '-'
    && forall j :: 1 <= j < |p| ==> p[j] != '-' && !IsDigit(p[j]) && !IsSpace(p[j])
  }

  lemma PrefixesAreFlagPrefixes()
    ensures IsFlagPrefix(MaxPrefix) && IsFlagPrefix(MinPrefix) && MaxPrefix != MinPrefix
  {
    assert MaxPrefix[3] != MinPrefix[3];
  }

  /** Number of ASCII digits at the start of `s`. */
  function DigitRun(s: string): (k: nat)
    ensures k <= |s|
    ensures forall j :: 0 <= j < k ==> IsDigit(s[j])
    ensures k < |s| ==> !IsDigit(s[k])
  {
    if |s| > 0 && IsDigit(s[0]) then 1 + DigitRun(s[1..]) else 0
  }

  /** `s` starts with a flag `p<digits>G` that is `n` characters long. */
  predicate FlagShape(p: string, s: string, n: int) {
    && |p| + 2 <= n <= |s|
    && s[..|p|] == p
    && IsDigits(s[|p|..n - 1])
    && s[n - 1] == 'G'
  }

  /** Length of the match of the pattern `p\d+G` at the start of `s`, or 0 if it does not
      match there. */
  function FlagLen(p: string, s: string): (n: nat)
    ensures n == 0 || FlagShape(p, s, n)
  {
    if |s| < |p| || s[..|p|] != p then 0
    else
      var k := DigitRun(s[|p|..]);
      if k > 0 && |p| + k < |s| && s[|p| + k] == 'G' then
        assert s[|p|..|p| + k] == s[|p|..][..k];
        |p| + k + 1
      else 0
  }

  /** The match length is the one and only length a flag at that position can have:
      wherever `s` starts with a flag, `FlagLen` finds it. */
  lemma FlagLenComplete(p: string, s: string, m: int)
    requires FlagShape(p, s, m)
    ensures FlagLen(p, s) == m
  {
    var t := s[|p|..];
    var k := DigitRun(t);
    assert forall j :: 0 <= j < m - 1 - |p| ==> t[j] == s[|p|..m - 1][j];
    assert t[m - 1 - |p|] == 'G';
    assert k == m - 1 - |p|;
  }

  /** `re.sub(p + r"\d+G", r, s)`. */
  function Replace(p: string, r: string, s: string): string
    decreases |s|
  {
    if |s| == 0 then ""
    else
      var n := FlagLen(p, s);
      if n > 0 then r + Replace(p, r, s[n..])
      else [s[0]] + Replace(p, r, s[1..])
  }

  /** The flag `set_memory` writes, `f"{p}{gb}G"`. */
  function FlagFor(p: string, gb: string): string {
    p + gb + "G"
  }

  /** `r` is one whole flag for prefix `p`, as the replacement text always is. */
  predicate Replacement(p: string, r: string) {
    IsFlagPrefix(p) && |r| > 0 && FlagLen(p, r) == |r|
  }

  // ------------------------------------------------------ facts about flags

  /** Whether a flag of length `n` starts `s` depends on `s[..n]` only. */
  lemma FlagShapeLocal(p: string, s: string, t: string, n: int)
    requires |p| + 2 <= n <= |s| && n <= |t| && s[..n] == t[..n]
    ensures FlagShape(p, s, n) <==> FlagShape(p, t, n)
  {
    SliceOfPrefix(s, n, 0, |p|);
    SliceOfPrefix(t, n, 0, |p|);
    SliceOfPrefix(s, n, |p|, n - 1);
    SliceOfPrefix(t, n, |p|, n - 1);
    assert s[n - 1] == s[..n][n - 1] && t[n - 1] == t[..n][n - 1];
  }

  lemma SliceOfPrefix<T>(s: seq<T>, n: int, a: int, b: int)
    requires 0 <= a <= b <= n <= |s|
    ensures s[..n][a..b] == s[a..b]
  {
  }

  /** A flag found at the start of `s` is found at the start of anything that begins
      with the same `n` characters. */
  lemma FlagLenSamePrefix(p: string, s: string, t: string)
    requires FlagLen(p, s) > 0
    requires FlagLen(p, s) <= |t| && s[..FlagLen(p, s)] == t[..FlagLen(p, s)]
    ensures FlagLen(p, t) == FlagLen(p, s)
  {
    FlagShapeLocal(p, s, t, FlagLen(p, s));
    FlagLenComplete(p, t, FlagLen(p, s));
  }

  lemma FlagForIsReplacement(p: string, gb: string)
    requires IsFlagPrefix(p) && IsDigits(gb)
    ensures Replacement(p, FlagFor(p, gb))
  {
    var r := FlagFor(p, gb);
    assert r[..|p|] == p;
    assert r[|p|..|r| - 1] == gb;
    assert FlagShape(p, r, |r|);
    FlagLenComplete(p, r, |r|);
  }

  /** Inside a flag there is no `-` after the first character and no whitespace at all. */
  lemma FlagChars(p: string, s: string)
    requires IsFlagPrefix(p) && FlagLen(p, s) > 0
    ensures s[0] == '-'
    ensures forall j :: 1 <= j < FlagLen(p, s) ==> s[j] != '-'
    ensures forall j :: 0 <= j < FlagLen(p, s) ==> !IsSpace(s[j])
  {
    var n := FlagLen(p, s);
    assert s[..|p|] == p;
    forall j | 0 <= j < n ensures (j > 0 ==> s[j] != '-') && !IsSpace(s[j]) {
      if j < |p| {
        assert s[j] == p[j];
      } else if j < n - 1 {
        assert s[j] == s[|p|..n - 1][j - |p|];
      }
    }
  }

  lemma FlagStopsAtSpace(p: string, s: string, k: nat)
    requires IsFlagPrefix(p) && k < |s| && IsSpace(s[k])
    ensures FlagLen(p, s) <= k
  {
    if FlagLen(p, s) > 0 {
      FlagChars(p, s);
    }
  }

  lemma NoDashNoFlag(p: string, s: string)
    requires IsFlagPrefix(p) && |s| > 0 && s[0] != '-'
    ensures FlagLen(p, s) == 0
  {
    if FlagLen(p, s) > 0 {
      FlagChars(p, s);
    }
  }

  /** Flags with different prefixes never start at the same place. */
  lemma PrefixExcludes(p: string, q: string, s: string)
    requires IsFlagPrefix(p) && IsFlagPrefix(q) && p != q
    requires |s| >= |p| && s[..|p|] == p
    ensures FlagLen(q, s) == 0
  {
  }

  // ------------------------------------------ the dash-delimited head of a string

  /** Number of characters at the start of `s` that are not `-`. */
  function DashFree(s: string): (n: nat)
    ensures n <= |s|
    ensures forall j :: 0 <= j < n ==> s[j] != '-'
    ensures n < |s| ==> s[n] == '-'
  {
    if |s| > 0 && s[0] != '-' then 1 + DashFree(s[1..]) else 0
  }

  /** Length of the head of `s`: its first character and everything up to the next `-`. */
  function HeadLen(s: string): (h: nat)
    requires |s| > 0
    ensures 1 <= h <= |s|
    ensures forall j :: 1 <= j < h ==> s[j] != '-'
    ensures h < |s| ==> s[h] == '-'
  {
    1 + DashFree(s[1..])
  }

  /** A flag lies within the head of the string it starts, so the head alone decides it. */
  lemma FlagWithinHead(p: string, s: string)
    requires IsFlagPrefix(p) && |s| > 0
    ensures FlagLen(p, s) <= HeadLen(s)
    ensures FlagLen(p, s) == FlagLen(p, s[..HeadLen(s)])
  {
    var h := HeadLen(s);
    var n := FlagLen(p, s);
    if n > 0 {
      FlagChars(p, s);
      assert s[..h][..n] == s[..n];
      FlagLenSamePrefix(p, s, s[..h]);
    } else if FlagLen(p, s[..h]) > 0 {
      assert s[..h][..FlagLen(p, s[..h])] == s[..FlagLen(p, s[..h])];
      FlagLenSamePrefix(p, s[..h], s);
    }
  }

  lemma HeadOfConcat(x: string, z: string)
    requires |x| > 0 && forall j :: 1 <= j < |x| ==> x[j] != '-'
    requires |z| == 0 || z[0] == '-'
    ensures HeadLen(x + z) == |x|
  {
    var s := x + z;
    assert forall j :: 1 <= j < |x| ==> s[j] != '-';
    assert |x| < |s| ==> s[|x|] == '-';
  }

  // --------------------------------------------- how Replace treats text

  /** Where no flag starts, the scan copies one character and moves on. */
  lemma LiteralStep(p: string, r: string, s: string)
    requires |s| > 0 && FlagLen(p, s) == 0
    ensures Replace(p, r, s) == [s[0]] + Replace(p, r, s[1..])
  {
  }

  /** Characters other than `-` are copied through one by one. */
  lemma {:induction false} LiteralRun(p: string, r: string, s: string, k: nat)
    requires IsFlagPrefix(p)
    requires k <= DashFree(s)
    ensures Replace(p, r, s) == s[..k] + Replace(p, r, s[k..])
    decreases k
  {
    if k > 0 {
      NoDashNoFlag(p, s);
      LiteralStep(p, r, s);
      var t := s[1..];
      LiteralRun(p, r, t, k - 1);
      SliceShift(s, k);
      ConsRegroup(Replace(p, r, s), s[0], Replace(p, r, t), t[..k - 1], Replace(p, r, s[k..]));
    }
  }

  lemma SliceShift<T>(s: seq<T>, k: int)
    requires 0 < k <= |s|
    ensures s[1..][k - 1..] == s[k..] && s[..k] == [s[0]] + s[1..][..k - 1]
  {
  }

  lemma ConsRegroup<T>(x: seq<T>, c: T, y: seq<T>, a: seq<T>, z: seq<T>)
    requires x == [c] + y && y == a + z
    ensures x == ([c] + a) + z
  {
  }

  lemma ReplaceStartsWithDash(p: string, r: string, s: string)
    requires Replacement(p, r)
    requires |s| > 0 && s[0] == '-'
    ensures |Replace(p, r, s)| > 0 && Replace(p, r, s)[0] == '-'
  {
    if FlagLen(p, s) > 0 {
      FlagChars(p, r);
    }
  }

  /** Where no flag starts, the rewrite keeps the head of the string as it is, and the
      head of the result ends at the same place. */
  lemma KeepsHead(p: string, r: string, s: string)
    requires Replacement(p, r)
    requires |s| > 0 && FlagLen(p, s) == 0
    ensures var o := Replace(p, r, s);
            |o| > 0 && HeadLen(s) <= |o| && o[..HeadLen(s)] == s[..HeadLen(s)] &&
            HeadLen(o) == HeadLen(s)
  {
    var h := HeadLen(s);
    var z := Replace(p, r, s[h..]);
    ReplaceLiteralHead(p, r, s);
    if h < |s| {
      ReplaceStartsWithDash(p, r, s[h..]);
    }
    HeadOfConcat(s[..h], z);
    assert (s[..h] + z)[..h] == s[..h];
  }

  /** Where no flag starts, the head is copied through unchanged. */
  lemma ReplaceLiteralHead(p: string, r: string, s: string)
    requires IsFlagPrefix(p)
    requires |s| > 0 && FlagLen(p, s) == 0
    ensures Replace(p, r, s) == s[..HeadLen(s)] + Replace(p, r, s[HeadLen(s)..])
  {
    var h := HeadLen(s);
    var t := s[1..];
    LiteralStep(p, r, s);
    LiteralRun(p, r, t, h - 1);
    SliceShift(s, h);
    ConsRegroup(Replace(p, r, s), s[0], Replace(p, r, t), t[..h - 1], Replace(p, r, s[h..]));
  }

  /** Where no flag for `p` starts, a flag for `q` starts in the rewrite exactly when it
      started in the original, and it is the same text. */
  lemma LiteralPositionKeepsFlag(p: string, r: string, q: string, s: string)
    requires Replacement(p, r) && IsFlagPrefix(q)
    requires |s| > 0 && FlagLen(p, s) == 0
    ensures var o := Replace(p, r, s);
            FlagLen(q, o) == FlagLen(q, s) && FlagLen(q, s) <= |o| &&
            o[..FlagLen(q, s)] == s[..FlagLen(q, s)]
  {
    var o := Replace(p, r, s);
    var h := HeadLen(s);
    KeepsHead(p, r, s);
    FlagWithinHead(q, s);
    FlagWithinHead(q, o);
    assert o[..h] == s[..h];
    var m := FlagLen(q, s);
    assert o[..m] == o[..h][..m] && s[..m] == s[..h][..m];
  }

  // --------------------------------------------------- "current" flags

  /** At position `i` of `s`, either no flag for `p` starts, or it is exactly `r`. */
  predicate CurrentAt(p: string, r: string, s: string, i: int)
    requires 0 <= i < |s|
  {
    var n := FlagLen(p, s[i..]);
    n == 0 || s[i..i + n] == r
  }

  /** Every `p<digits>G` flag in `s` is exactly `r`. */
  predicate AllCurrent(p: string, r: string, s: string) {
    forall i :: 0 <= i < |s| ==> CurrentAt(p, r, s, i)
  }

  lemma CurrentInSuffix(q: string, rq: string, x: string, y: string)
    requires AllCurrent(q, rq, y)
    ensures forall i :: |x| <= i < |x + y| ==> CurrentAt(q, rq, x + y, i)
  {
    forall i | |x| <= i < |x + y| ensures CurrentAt(q, rq, x + y, i) {
      assert (x + y)[i..] == y[i - |x|..];
      assert CurrentAt(q, rq, y, i - |x|);
      var n := FlagLen(q, y[i - |x|..]);
      if n > 0 {
        assert (x + y)[i..i + n] == y[i - |x|..i - |x| + n];
      }
    }
  }

  /** Inside a replacement flag, past its first character, no flag starts. */
  lemma NoFlagInsideReplacement(p: string, r: string, q: string, y: string)
    requires Replacement(p, r) && IsFlagPrefix(q)
    ensures forall i :: 1 <= i < |r| ==> FlagLen(q, (r + y)[i..]) == 0
  {
    FlagChars(p, r);
    forall i | 1 <= i < |r| ensures FlagLen(q, (r + y)[i..]) == 0 {
      assert (r + y)[i..][0] == r[i];
      NoDashNoFlag(q, (r + y)[i..]);
    }
  }

  /** After the rewrite, every flag for `p` is the new one: nothing stale survives. */
  lemma {:induction false} ReplaceMakesCurrent(p: string, r: string, s: string)
    requires Replacement(p, r)
    ensures AllCurrent(p, r, Replace(p, r, s))
    decreases |s|
  {
    if |s| > 0 {
      var o := Replace(p, r, s);
      var n := FlagLen(p, s);
      if n > 0 {
        var rest := Replace(p, r, s[n..]);
        ReplaceMakesCurrent(p, r, s[n..]);
        assert o == r + rest;
        CurrentInSuffix(p, r, r, rest);
        NoFlagInsideReplacement(p, r, p, rest);
        forall i | 0 <= i < |r| ensures CurrentAt(p, r, o, i) {
          if i == 0 {
            assert o[0..] == o;
            assert o[..|r|] == r[..|r|];
            FlagLenSamePrefix(p, r, o);
            assert o[0..|r|] == r;
          } else {
            assert o[i..] == (r + rest)[i..];
          }
        }
      } else {
        var rest := Replace(p, r, s[1..]);
        ReplaceMakesCurrent(p, r, s[1..]);
        assert o == [s[0]] + rest;
        CurrentInSuffix(p, r, [s[0]], rest);
        LiteralPositionKeepsFlag(p, r, p, s);
        assert o[0..] == o && s[0..] == s;
      }
    }
  }

  /** A rewrite for one prefix keeps the flags of the other prefix as they were, so
      flags that were current stay current. */
  lemma {:induction false} ReplaceKeepsOtherCurrent(p: string, r: string, q: string, rq: string, s: string)
    requires Replacement(p, r) && IsFlagPrefix(q) && p != q
    requires AllCurrent(q, rq, s)
    ensures AllCurrent(q, rq, Replace(p, r, s))
    decreases |s|
  {
    if |s| > 0 {
      var n := FlagLen(p, s);
      var k := if n > 0 then n else 1;
      SliceKeepsCurrent(q, rq, s, k, |s|);
      assert s[k..|s|] == s[k..];
      ReplaceKeepsOtherCurrent(p, r, q, rq, s[k..]);
      if n > 0 {
        ReplacedHeadKeepsOther(p, r, q, rq, Replace(p, r, s[k..]));
      } else {
        LiteralHeadKeepsOther(p, r, q, rq, s);
      }
    }
  }

  /** The step of `ReplaceKeepsOtherCurrent` where a `p` flag was replaced. */
  lemma ReplacedHeadKeepsOther(p: string, r: string, q: string, rq: string, rest: string)
    requires Replacement(p, r) && IsFlagPrefix(q) && p != q
    requires AllCurrent(q, rq, rest)
    ensures AllCurrent(q, rq, r + rest)
  {
    var o := r + rest;
    CurrentInSuffix(q, rq, r, rest);
    NoFlagInsideReplacement(p, r, q, rest);
    forall i | 0 <= i < |r| ensures CurrentAt(q, rq, o, i) {
      if i == 0 {
        assert o[0..] == o;
        assert r[..|p|] == p;
        assert o[..|p|] == p;
        PrefixExcludes(p, q, o);
      }
    }
  }

  /** The step of `ReplaceKeepsOtherCurrent` where the first character was copied. */
  lemma LiteralHeadKeepsOther(p: string, r: string, q: string, rq: string, s: string)
    requires Replacement(p, r) && IsFlagPrefix(q)
    requires |s| > 0 && FlagLen(p, s) == 0
    requires CurrentAt(q, rq, s, 0)
    requires AllCurrent(q, rq, Replace(p, r, s[1..]))
    ensures AllCurrent(q, rq, Replace(p, r, s))
  {
    var rest := Replace(p, r, s[1..]);
    var o := Replace(p, r, s);
    assert o == [s[0]] + rest;
    CurrentInSuffix(q, rq, [s[0]], rest);
    LiteralPositionKeepsFlag(p, r, q, s);
    assert o[0..] == o && s[0..] == s;
  }

  /** A text whose flags are all current is left exactly as it is. */
  lemma {:induction false} ReplaceFixesCurrent(p: string, r: string, s: string)
    requires Replacement(p, r) && AllCurrent(p, r, s)
    ensures Replace(p, r, s) == s
    decreases |s|
  {
    if |s| > 0 {
      var n := FlagLen(p, s);
      var k := if n > 0 then n else 1;
      SliceKeepsCurrent(p, r, s, k, |s|);
      assert s[k..|s|] == s[k..];
      ReplaceFixesCurrent(p, r, s[k..]);
      if n > 0 {
        assert CurrentAt(p, r, s, 0);
        FixesFlagStep(p, r, s);
      } else {
        FixesLiteralStep(p, r, s);
      }
    }
  }

  lemma FixesFlagStep(p: string, r: string, s: string)
    requires |s| > 0 && CurrentAt(p, r, s, 0) && FlagLen(p, s) > 0
    requires Replace(p, r, s[FlagLen(p, s)..]) == s[FlagLen(p, s)..]
    ensures Replace(p, r, s) == s
  {
    var n := FlagLen(p, s);
    assert s[0..] == s;
    assert s[0..n] == s[..n] == r;
    assert s == s[..n] + s[n..];
  }

  lemma FixesLiteralStep(p: string, r: string, s: string)
    requires |s| > 0 && FlagLen(p, s) == 0
    requires Replace(p, r, s[1..]) == s[1..]
    ensures Replace(p, r, s) == s
  {
    assert s == [s[0]] + s[1..];
  }

  /** The rewrite is idempotent: a second `re.sub` with the same size changes nothing. */
  lemma ReplaceIdempotent(p: string, r: string, s: string)
    requires Replacement(p, r)
    ensures Replace(p, r, Replace(p, r, s)) == Replace(p, r, s)
  {
    ReplaceMakesCurrent(p, r, s);
    ReplaceFixesCurrent(p, r, Replace(p, r, s));
  }

  /** Taking a slice cannot create a flag, so current flags stay current. */
  lemma SliceKeepsCurrent(q: string, rq: string, s: string, a: nat, b: nat)
    requires IsFlagPrefix(q) && a <= b <= |s| && AllCurrent(q, rq, s)
    ensures AllCurrent(q, rq, s[a..b])
  {
    var t := s[a..b];
    forall i | 0 <= i < |t| ensures CurrentAt(q, rq, t, i) {
      var m := FlagLen(q, t[i..]);
      if m > 0 {
        assert t[i..][..m] == s[a + i..][..m];
        FlagLenSamePrefix(q, t[i..], s[a + i..]);
        assert CurrentAt(q, rq, s, a + i);
        assert t[i..i + m] == t[i..][..m];
        assert s[a + i..a + i + m] == s[a + i..][..m];
      }
    }
  }

  /** Gluing after text that ends in whitespace cannot create a flag across the seam. */
  lemma ConcatKeepsCurrent(q: string, rq: string, x: string, y: string)
    requires IsFlagPrefix(q) && AllCurrent(q, rq, x) && AllCurrent(q, rq, y)
    requires |x| > 0 && IsSpace(x[|x| - 1])
    ensures AllCurrent(q, rq, x + y)
  {
    var s := x + y;
    CurrentInSuffix(q, rq, x, y);
    forall i | 0 <= i < |x| ensures CurrentAt(q, rq, s, i) {
      var m := FlagLen(q, s[i..]);
      if m > 0 {
        assert s[i..][|x| - 1 - i] == x[|x| - 1];
        FlagStopsAtSpace(q, s[i..], |x| - 1 - i);
        assert s[i..][..m] == x[i..][..m];
        FlagLenSamePrefix(q, s[i..], x[i..]);
        assert CurrentAt(q, rq, x, i);
        assert s[i..i + m] == x[i..i + m];
      }
    }
  }

  /** A replacement flag followed by a space: the only flag in it is itself. */
  lemma SpacedFlagCurrent(p: string, r: string, q: string, rq: string)
    requires Replacement(p, r) && IsFlagPrefix(q)
    requires q == p ==> rq == r
    ensures AllCurrent(q, rq, r + " ")
  {
    var s := r + " ";
    NoFlagInsideReplacement(p, r, q, " ");
    forall i | 0 <= i < |s| ensures CurrentAt(q, rq, s, i) {
      if i == 0 {
        assert s[0..] == s;
        assert s[..|r|] == r[..|r|];
        if q == p {
          FlagLenSamePrefix(p, r, s);
          assert s[0..|r|] == r;
        } else {
          assert r[..|p|] == p;
          assert s[..|p|] == p;
          PrefixExcludes(p, q, s);
        }
      } else if i == |r| {
        assert s[i..] == " ";
        NoDashNoFlag(q, s[i..]);
      }
    }
  }

  // ------------------------------------------- what the rewrite keeps

  /** An occurrence of a `-`-led text starts at 0, or after the `-`-free stretch. */
  lemma ContainsSkip(s: string, q: string, k: int)
    requires |q| > 0 && q[0] == '-'
    requires 1 <= k <= |s| && forall j :: 1 <= j < k ==> s[j] != '-'
    ensures Contains(s, q) <==> OccursAt(s, q, 0) || Contains(s[k..], q)
  {
    if Contains(s, q) {
      var i :| 0 <= i <= |s| && OccursAt(s, q, i);
      assert s[i..i + |q|][0] == s[i];
      if i >= k {
        assert s[k..][i - k..i - k + |q|] == s[i..i + |q|];
        assert OccursAt(s[k..], q, i - k);
      }
    }
    if Contains(s[k..], q) {
      var j :| 0 <= j <= |s[k..]| && OccursAt(s[k..], q, j);
      assert s[k..][j..j + |q|] == s[j + k..j + k + |q|];
      assert OccursAt(s, q, j + k);
    }
  }

  /** A prefix occurs at the start exactly when it fits in the head. */
  lemma StartsWithinHead(q: string, x: string)
    requires IsFlagPrefix(q) && |x| > 0
    ensures OccursAt(x, q, 0) <==> HeadLen(x) >= |q| && x[..|q|] == q
  {
    if |x| >= |q| {
      assert x[0..|q|] == x[..|q|];
    }
  }

  /** `re.sub` on one prefix neither creates nor destroys an occurrence of either
      prefix: every `-Xmx` or `-Xms` in the result was there before, and stays. */
  lemma {:induction false} ReplaceContains(p: string, r: string, q: string, s: string)
    requires Replacement(p, r) && IsFlagPrefix(q)
    ensures Contains(Replace(p, r, s), q) <==> Contains(s, q)
    decreases |s|
  {
    if |s| > 0 {
      var n := FlagLen(p, s);
      if n > 0 {
        ReplaceContains(p, r, q, s[n..]);
        FlagHeadContains(p, r, q, s);
      } else {
        ReplaceContains(p, r, q, s[1..]);
        LiteralHeadContains(p, r, q, s);
      }
    }
  }

  /** The step of `ReplaceContains` where a flag is replaced. */
  lemma FlagHeadContains(p: string, r: string, q: string, s: string)
    requires Replacement(p, r) && IsFlagPrefix(q)
    requires |s| > 0 && FlagLen(p, s) > 0
    requires Contains(Replace(p, r, s[FlagLen(p, s)..]), q) <==> Contains(s[FlagLen(p, s)..], q)
    ensures Contains(Replace(p, r, s), q) <==> Contains(s, q)
  {
    var n := FlagLen(p, s);
    var rest := Replace(p, r, s[n..]);
    var o := Replace(p, r, s);
    assert o == r + rest;
    FlagChars(p, s);
    FlagChars(p, r);
    ContainsSkip(s, q, n);
    assert forall j :: 1 <= j < |r| ==> o[j] == r[j];
    ContainsSkip(o, q, |r|);
    assert o[|r|..] == rest;
    assert s[..|p|] == p && s[0..|q|] == s[..|p|];
    assert r[..|p|] == p;
    assert o[0..|q|] == r[..|p|];
  }

  /** The step of `ReplaceContains` where a character is copied. */
  lemma LiteralHeadContains(p: string, r: string, q: string, s: string)
    requires Replacement(p, r) && IsFlagPrefix(q)
    requires |s| > 0 && FlagLen(p, s) == 0
    requires Contains(Replace(p, r, s[1..]), q) <==> Contains(s[1..], q)
    ensures Contains(Replace(p, r, s), q) <==> Contains(s, q)
  {
    var o := Replace(p, r, s);
    LiteralStep(p, r, s);
    ContainsSkip(s, q, 1);
    ContainsSkip(o, q, 1);
    assert o[1..] == Replace(p, r, s[1..]);
    LiteralKeepsStart(p, r, q, s);
  }

  /** Where the first character is copied, a prefix starts the rewrite exactly when it
      started the original. */
  lemma LiteralKeepsStart(p: string, r: string, q: string, s: string)
    requires Replacement(p, r) && IsFlagPrefix(q)
    requires |s| > 0 && FlagLen(p, s) == 0
    ensures OccursAt(Replace(p, r, s), q, 0) <==> OccursAt(s, q, 0)
  {
    var o := Replace(p, r, s);
    KeepsHead(p, r, s);
    StartsWithinHead(q, s);
    StartsWithinHead(q, o);
    var h := HeadLen(s);
    if h >= |q| {
      assert o[..|q|] == o[..h][..|q|];
      assert s[..|q|] == s[..h][..|q|];
    }
  }

  /** The two `re.sub` calls leave `-Xmx` present exactly when it was present before,
      so the prepend happens exactly when the arguments had no `-Xmx`. */
  lemma RewriteKeepsMaxPresence(args: string, gb: string)
    requires IsDigits(gb)
    ensures Contains(Replace(MinPrefix, FlagFor(MinPrefix, gb), Replace(MaxPrefix, FlagFor(MaxPrefix, gb), args)), MaxPrefix)
            <==> Contains(args, MaxPrefix)
  {
    PrefixesAreFlagPrefixes();
    FlagForIsReplacement(MaxPrefix, gb);
    FlagForIsReplacement(MinPrefix, gb);
    var x := Replace(MaxPrefix, FlagFor(MaxPrefix, gb), args);
    ReplaceContains(MaxPrefix, FlagFor(MaxPrefix, gb), MaxPrefix, args);
    ReplaceContains(MinPrefix, FlagFor(MinPrefix, gb), MaxPrefix, x);
  }

  /** No flag spans whitespace, so `re.sub` works independently on the two sides of a
      whitespace seam. */
  lemma {:induction false} ReplaceSeam(p: string, r: string, x: string, y: string)
    requires IsFlagPrefix(p)
    requires |x| == 0 || |y| == 0 || IsSpace(x[|x| - 1]) || IsSpace(y[0])
    ensures Replace(p, r, x + y) == Replace(p, r, x) + Replace(p, r, y)
    decreases |x|
  {
    if |x| == 0 {
      assert x + y == y;
    } else if |y| == 0 {
      assert x + y == x;
    } else {
      var s := x + y;
      var k := if IsSpace(x[|x| - 1]) then |x| - 1 else |x|;
      assert s[k] == (if k < |x| then x[k] else y[0]);
      FlagStopsAtSpace(p, s, k);
      var n := FlagLen(p, s);
      if n > 0 {
        assert k < |x| ==> x[n..][|x[n..]| - 1] == x[|x| - 1];
        ReplaceSeam(p, r, x[n..], y);
        SeamFlagStep(p, r, x, y);
      } else {
        assert k < |x| && |x| > 1 ==> x[1..][|x[1..]| - 1] == x[|x| - 1];
        ReplaceSeam(p, r, x[1..], y);
        SeamLiteralStep(p, r, x, y);
      }
    }
  }

  lemma SeamFlagStep(p: string, r: string, x: string, y: string)
    requires IsFlagPrefix(p) && |x| > 0
    requires 0 < FlagLen(p, x + y) <= |x|
    requires Replace(p, r, x[FlagLen(p, x + y)..] + y) == Replace(p, r, x[FlagLen(p, x + y)..]) + Replace(p, r, y)
    ensures Replace(p, r, x + y) == Replace(p, r, x) + Replace(p, r, y)
  {
    var n := FlagLen(p, x + y);
    ConcatSlices(x, y, n);
    FlagLenSamePrefix(p, x + y, x);
    Regroup(r, Replace(p, r, x[n..]), Replace(p, r, y));
  }

  lemma SeamLiteralStep(p: string, r: string, x: string, y: string)
    requires IsFlagPrefix(p) && |x| > 0
    requires FlagLen(p, x + y) == 0
    requires Replace(p, r, x[1..] + y) == Replace(p, r, x[1..]) + Replace(p, r, y)
    ensures Replace(p, r, x + y) == Replace(p, r, x) + Replace(p, r, y)
  {
    ConcatSlices(x, y, 1);
    if FlagLen(p, x) > 0 {
      ConcatSlices(x, y, FlagLen(p, x));
      FlagLenSamePrefix(p, x, x + y);
    }
    assert (x + y)[0] == x[0];
    Regroup([x[0]], Replace(p, r, x[1..]), Replace(p, r, y));
  }

  /** `re.sub` applied to each word of a list. */
  function MapReplace(p: string, r: string, ws: seq<string>): (out: seq<string>)
    ensures |out| == |ws|
    ensures forall i :: 0 <= i < |ws| ==> out[i] == Replace(p, r, ws[i])
  {
    if |ws| == 0 then [] else [Replace(p, r, ws[0])] + MapReplace(p, r, ws[1..])
  }

  /** On words joined by single spaces, `re.sub` rewrites each word on its own and
      keeps the spaces. */
  lemma {:induction false} ReplaceWordByWord(p: string, r: string, ws: seq<string>)
    requires IsFlagPrefix(p)
    ensures Replace(p, r, JoinSpaced(ws)) == JoinSpaced(MapReplace(p, r, ws))
  {
    if |ws| == 1 {
      assert MapReplace(p, r, ws) == [Replace(p, r, ws[0])];
    } else if |ws| >= 2 {
      var w, j := ws[0], JoinSpaced(ws[1..]);
      assert JoinSpaced(ws) == (w + " ") + j;
      ReplaceSeam(p, r, w + " ", j);
      ReplaceSeam(p, r, w, " ");
      NoDashNoFlag(p, " ");
      assert Replace(p, r, " ") == " ";
      ReplaceWordByWord(p, r, ws[1..]);
      var m := MapReplace(p, r, ws);
      assert m[1..] == MapReplace(p, r, ws[1..]);
      assert JoinSpaced(m) == m[0] + " " + JoinSpaced(m[1..]);
    }
  }

  /** Rewriting whitespace-free text gives whitespace-free text, and non-empty text
      stays non-empty. */
  lemma {:induction false} ReplaceNoSpace(p: string, r: string, s: string)
    requires Replacement(p, r) && NoSpace(s)
    ensures NoSpace(Replace(p, r, s))
    ensures |s| > 0 ==> |Replace(p, r, s)| > 0
    decreases |s|
  {
    if |s| > 0 {
      var n := FlagLen(p, s);
      if n > 0 {
        ReplaceNoSpace(p, r, s[n..]);
        FlagChars(p, r);
        NoSpaceConcat(r, Replace(p, r, s[n..]));
      } else {
        ReplaceNoSpace(p, r, s[1..]);
        LiteralStep(p, r, s);
        NoSpaceConcat([s[0]], Replace(p, r, s[1..]));
      }
    }
  }

  /** Where whitespace starts the text, the rewrite starts with it too. */
  lemma SpaceLeadsReplace(p: string, r: string, t: string)
    requires IsFlagPrefix(p) && |t| > 0 && IsSpace(t[0])
    ensures |Replace(p, r, t)| > 0 && Replace(p, r, t)[0] == t[0]
  {
    NoDashNoFlag(p, t);
  }

  /** For any arguments, whatever their spacing, the tokens of the rewrite are the
      tokens of the input, each rewritten on its own. */
  lemma {:induction false} SplitReplace(p: string, r: string, s: string)
    requires Replacement(p, r)
    ensures Split(Replace(p, r, s)) == MapReplace(p, r, Split(s))
    decreases |s|
  {
    if |s| > 0 {
      if IsSpace(s[0]) {
        SplitReplace(p, r, s[1..]);
        SplitReplaceSpaceStep(p, r, s);
      } else {
        SplitUnfold(s);
        SplitReplace(p, r, s[WordLen(s)..]);
        SplitReplaceWordStep(p, r, s);
      }
    }
  }

  lemma SplitReplaceSpaceStep(p: string, r: string, s: string)
    requires Replacement(p, r) && |s| > 0 && IsSpace(s[0])
    requires Split(Replace(p, r, s[1..])) == MapReplace(p, r, Split(s[1..]))
    ensures Split(Replace(p, r, s)) == MapReplace(p, r, Split(s))
  {
    NoDashNoFlag(p, s);
    var o := Replace(p, r, s);
    assert o == [s[0]] + Replace(p, r, s[1..]);
    assert o[0] == s[0];
    assert o[1..] == Replace(p, r, s[1..]);
  }

  lemma SplitReplaceWordStep(p: string, r: string, s: string)
    requires Replacement(p, r) && |s| > 0 && !IsSpace(s[0])
    requires Split(Replace(p, r, s[WordLen(s)..])) == MapReplace(p, r, Split(s[WordLen(s)..]))
    ensures Split(Replace(p, r, s)) == MapReplace(p, r, Split(s))
  {
    var n := WordLen(s);
    SplitUnfold(s);
    ReplacedWordThen(p, r, s[..n], s[n..]);
    MapReplaceCons(p, r, s[..n], Split(s[n..]));
  }

  /** A word followed by nothing or by whitespace: its rewrite is the first token. */
  lemma ReplacedWordThen(p: string, r: string, w: string, t: string)
    requires Replacement(p, r) && IsWord(w)
    requires |t| == 0 || IsSpace(t[0])
    ensures Split(Replace(p, r, w + t)) == [Replace(p, r, w)] + Split(Replace(p, r, t))
  {
    ReplaceSeam(p, r, w, t);
    ReplaceNoSpace(p, r, w);
    if |t| > 0 {
      SpaceLeadsReplace(p, r, t);
    }
    SplitWordThen(Replace(p, r, w), Replace(p, r, t));
  }

  lemma MapReplaceCons(p: string, r: string, w: string, ws: seq<string>)
    ensures MapReplace(p, r, [w] + ws) == [Replace(p, r, w)] + MapReplace(p, r, ws)
  {
    assert ([w] + ws)[1..] == ws;
  }

  /** `set_memory`'s two substitutions on one word. */
  function RewriteWord(w: string, gb: string): string {
    Replace(MinPrefix, FlagFor(MinPrefix, gb), Replace(MaxPrefix, FlagFor(MaxPrefix, gb), w))
  }

  /** Both substitutions applied to every word of a list, each word on its own. */
  function RewriteWords(ws: seq<string>, gb: string): (out: seq<string>)
    ensures |out| == |ws|
    ensures forall i :: 0 <= i < |ws| ==> out[i] == RewriteWord(ws[i], gb)
  {
    MapReplace(MinPrefix, FlagFor(MinPrefix, gb), MapReplace(MaxPrefix, FlagFor(MaxPrefix, gb), ws))
  }

  /** A word that mentions neither `-Xmx` nor `-Xms` comes through unchanged. */
  lemma RewriteWordKeepsPlain(w: string, gb: string)
    requires IsDigits(gb)
    requires !Contains(w, MaxPrefix) && !Contains(w, MinPrefix)
    ensures RewriteWord(w, gb) == w
  {
    PrefixesAreFlagPrefixes();
    FlagForIsReplacement(MaxPrefix, gb);
    FlagForIsReplacement(MinPrefix, gb);
    NoOccurrenceAllCurrent(MaxPrefix, FlagFor(MaxPrefix, gb), w);
    ReplaceFixesCurrent(MaxPrefix, FlagFor(MaxPrefix, gb), w);
    NoOccurrenceAllCurrent(MinPrefix, FlagFor(MinPrefix, gb), w);
    ReplaceFixesCurrent(MinPrefix, FlagFor(MinPrefix, gb), w);
  }

  lemma NoOccurrenceAllCurrent(p: string, r: string, s: string)
    requires !Contains(s, p)
    ensures AllCurrent(p, r, s)
  {
    forall i | 0 <= i < |s| ensures FlagLen(p, s[i..]) == 0 {
      if FlagLen(p, s[i..]) > 0 {
        assert s[i..][..|p|] == s[i..i + |p|];
        assert OccursAt(s, p, i);
      }
    }
  }

  lemma FlagForIsWord(p: string, gb: string)
    requires IsFlagPrefix(p) && IsDigits(gb)
    ensures IsWord(FlagFor(p, gb))
  {
    FlagForIsReplacement(p, gb);
    FlagChars(p, FlagFor(p, gb));
  }

  /** A rewritten word is still a word. */
  lemma RewriteWordIsWord(w: string, gb: string)
    requires IsDigits(gb) && IsWord(w)
    ensures IsWord(RewriteWord(w, gb))
  {
    PrefixesAreFlagPrefixes();
    FlagForIsReplacement(MaxPrefix, gb);
    FlagForIsReplacement(MinPrefix, gb);
    ReplaceNoSpace(MaxPrefix, FlagFor(MaxPrefix, gb), w);
    ReplaceNoSpace(MinPrefix, FlagFor(MinPrefix, gb), Replace(MaxPrefix, FlagFor(MaxPrefix, gb), w));
  }

  // ---------------------------------------------------------- set_memory

  /** The text `set_memory` puts in front when there is no `-Xmx` at all. */
  function MemoryPrefix(gb: string): string {
    FlagFor(MaxPrefix, gb) + " " + FlagFor(MinPrefix, gb) + " "
  }

  /** The argument rewrite of `set_memory` (Cobalt_Launcher_Nano_0.7_alpha.py:363-369). */
  function RewriteArgs(args: string, gb: string): string {
    var x := Replace(MaxPrefix, FlagFor(MaxPrefix, gb), args);
    var y := Replace(MinPrefix, FlagFor(MinPrefix, gb), x);
    var w := if Contains(y, MaxPrefix) then y else MemoryPrefix(gb) + y;
    Strip(w)
  }

  /** What the rewrite guarantees for a valid size: the result mentions `-Xmx`, every
      `-Xmx<digits>G` and `-Xms<digits>G` in it names exactly `gb` gigabytes, and it
      has no surrounding whitespace. */
  predicate MemoryArgsOk(a: string, gb: string) {
    && Contains(a, MaxPrefix)
    && AllCurrent(MaxPrefix, FlagFor(MaxPrefix, gb), a)
    && AllCurrent(MinPrefix, FlagFor(MinPrefix, gb), a)
    && Strip(a) == a
  }

  lemma RewriteArgsSound(args: string, gb: string)
    requires IsDigits(gb)
    ensures MemoryArgsOk(RewriteArgs(args, gb), gb)
  {
    var rx, rs := FlagFor(MaxPrefix, gb), FlagFor(MinPrefix, gb);
    var y := Replace(MinPrefix, rs, Replace(MaxPrefix, rx, args));
    var w := if Contains(y, MaxPrefix) then y else MemoryPrefix(gb) + y;
    BothPassesCurrent(args, gb);
    if !Contains(y, MaxPrefix) {
      PrependKeepsCurrent(gb, y);
    }
    StripKeepsCurrent(w, gb);
  }

  /** After the two `re.sub` calls, all `-Xmx` and `-Xms` flags name the new size. */
  lemma BothPassesCurrent(args: string, gb: string)
    requires IsDigits(gb)
    ensures var x := Replace(MaxPrefix, FlagFor(MaxPrefix, gb), args);
            var y := Replace(MinPrefix, FlagFor(MinPrefix, gb), x);
            AllCurrent(MaxPrefix, FlagFor(MaxPrefix, gb), y) &&
            AllCurrent(MinPrefix, FlagFor(MinPrefix, gb), y)
  {
    var rx, rs := FlagFor(MaxPrefix, gb), FlagFor(MinPrefix, gb);
    PrefixesAreFlagPrefixes();
    FlagForIsReplacement(MaxPrefix, gb);
    FlagForIsReplacement(MinPrefix, gb);
    var x := Replace(MaxPrefix, rx, args);
    ReplaceMakesCurrent(MaxPrefix, rx, args);
    ReplaceMakesCurrent(MinPrefix, rs, x);
    ReplaceKeepsOtherCurrent(MinPrefix, rs, MaxPrefix, rx, x);
  }

  /** The prepended `-Xmx{gb}G -Xms{gb}G ` contains `-Xmx` and only current flags. */
  lemma PrependKeepsCurrent(gb: string, y: string)
    requires IsDigits(gb)
    requires AllCurrent(MaxPrefix, FlagFor(MaxPrefix, gb), y)
    requires AllCurrent(MinPrefix, FlagFor(MinPrefix, gb), y)
    ensures var w := MemoryPrefix(gb) + y;
            AllCurrent(MaxPrefix, FlagFor(MaxPrefix, gb), w) &&
            AllCurrent(MinPrefix, FlagFor(MinPrefix, gb), w) &&
            Contains(w, MaxPrefix)
  {
    var rx, rs := FlagFor(MaxPrefix, gb), FlagFor(MinPrefix, gb);
    PrefixesAreFlagPrefixes();
    FlagForIsReplacement(MaxPrefix, gb);
    FlagForIsReplacement(MinPrefix, gb);
    SpacedFlagCurrent(MaxPrefix, rx, MaxPrefix, rx);
    SpacedFlagCurrent(MaxPrefix, rx, MinPrefix, rs);
    SpacedFlagCurrent(MinPrefix, rs, MaxPrefix, rx);
    SpacedFlagCurrent(MinPrefix, rs, MinPrefix, rs);
    ConcatKeepsCurrent(MaxPrefix, rx, rs + " ", y);
    ConcatKeepsCurrent(MinPrefix, rs, rs + " ", y);
    ConcatKeepsCurrent(MaxPrefix, rx, rx + " ", rs + " " + y);
    ConcatKeepsCurrent(MinPrefix, rs, rx + " ", rs + " " + y);
    var w := MemoryPrefix(gb) + y;
    assert w == rx + " " + (rs + " " + y);
    assert w[0..4] == MaxPrefix;
    assert OccursAt(w, MaxPrefix, 0);
  }

  /** Stripping keeps `-Xmx` present and the flags current, and leaves nothing to strip. */
  lemma StripKeepsCurrent(w: string, gb: string)
    requires IsDigits(gb) && Contains(w, MaxPrefix)
    requires AllCurrent(MaxPrefix, FlagFor(MaxPrefix, gb), w)
    requires AllCurrent(MinPrefix, FlagFor(MinPrefix, gb), w)
    ensures MemoryArgsOk(Strip(w), gb)
  {
    PrefixesAreFlagPrefixes();
    var a, b := StripSlice(w);
    SliceKeepsCurrent(MaxPrefix, FlagFor(MaxPrefix, gb), w, a, b);
    SliceKeepsCurrent(MinPrefix, FlagFor(MinPrefix, gb), w, a, b);
    assert IsWord(MaxPrefix);
    StripKeepsWord(w, MaxPrefix);
    StripIdempotent(w);
  }

  /** Arguments already in the shape the rewrite produces come back unchanged. */
  lemma RewriteArgsFixesOk(a: string, gb: string)
    requires IsDigits(gb) && MemoryArgsOk(a, gb)
    ensures RewriteArgs(a, gb) == a
  {
    PrefixesAreFlagPrefixes();
    FlagForIsReplacement(MaxPrefix, gb);
    FlagForIsReplacement(MinPrefix, gb);
    ReplaceFixesCurrent(MaxPrefix, FlagFor(MaxPrefix, gb), a);
    ReplaceFixesCurrent(MinPrefix, FlagFor(MinPrefix, gb), a);
  }

  /** The tokens of the rewritten arguments, for any spacing: each input token is
      rewritten on its own, and `-Xmx{gb}G -Xms{gb}G` come first exactly when the
      input had no `-Xmx`. Nothing is dropped, reordered or invented. */
  lemma SplitRewriteArgs(args: string, gb: string)
    requires IsDigits(gb)
    ensures Split(RewriteArgs(args, gb)) ==
            if Contains(args, MaxPrefix) then RewriteWords(Split(args), gb)
            else [FlagFor(MaxPrefix, gb), FlagFor(MinPrefix, gb)] + RewriteWords(Split(args), gb)
  {
    var rx, rs := FlagFor(MaxPrefix, gb), FlagFor(MinPrefix, gb);
    PrefixesAreFlagPrefixes();
    FlagForIsReplacement(MaxPrefix, gb);
    FlagForIsReplacement(MinPrefix, gb);
    var x := Replace(MaxPrefix, rx, args);
    var y := Replace(MinPrefix, rs, x);
    SplitReplace(MaxPrefix, rx, args);
    SplitReplace(MinPrefix, rs, x);
    RewriteKeepsMaxPresence(args, gb);
    var w := if Contains(y, MaxPrefix) then y else MemoryPrefix(gb) + y;
    SplitStrip(w);
    if !Contains(y, MaxPrefix) {
      PrefixTokens(gb, y);
    }
  }

  /** The prepended text contributes exactly the two new flags as tokens. */
  lemma PrefixTokens(gb: string, y: string)
    requires IsDigits(gb)
    ensures Split(MemoryPrefix(gb) + y) == [FlagFor(MaxPrefix, gb), FlagFor(MinPrefix, gb)] + Split(y)
  {
    var rx, rs := FlagFor(MaxPrefix, gb), FlagFor(MinPrefix, gb);
    PrefixesAreFlagPrefixes();
    FlagForIsWord(MaxPrefix, gb);
    FlagForIsWord(MinPrefix, gb);
    assert MemoryPrefix(gb) + y == rx + " " + (rs + " " + y);
    SplitGap(rx, " ", rs + " " + y);
    SplitGap(rs, " ", y);
    SplitWord(rx);
    SplitWord(rs);
  }

  /** For arguments written as words separated by single spaces, the exact result: the
      same spacing, each word rewritten on its own, and the two new flags in front
      exactly when no `-Xmx` was there. */
  lemma RewriteArgsWordByWord(words: seq<string>, gb: string)
    requires IsDigits(gb) && forall i :: 0 <= i < |words| ==> IsWord(words[i])
    ensures RewriteArgs(JoinSpaced(words), gb) ==
            JoinSpaced(if Contains(JoinSpaced(words), MaxPrefix) then RewriteWords(words, gb)
                       else [FlagFor(MaxPrefix, gb), FlagFor(MinPrefix, gb)] + RewriteWords(words, gb))
  {
    var rx, rs := FlagFor(MaxPrefix, gb), FlagFor(MinPrefix, gb);
    PrefixesAreFlagPrefixes();
    var a := JoinSpaced(words);
    var ws := RewriteWords(words, gb);
    ReplaceWordByWord(MaxPrefix, rx, words);
    ReplaceWordByWord(MinPrefix, rs, MapReplace(MaxPrefix, rx, words));
    var y := Replace(MinPrefix, rs, Replace(MaxPrefix, rx, a));
    assert y == JoinSpaced(ws);
    forall i | 0 <= i < |ws| ensures IsWord(ws[i]) {
      RewriteWordIsWord(words[i], gb);
    }
    RewriteKeepsMaxPresence(a, gb);
    if Contains(a, MaxPrefix) {
      StripJoined(ws);
    } else {
      PrependedJoin(gb, ws);
    }
  }

  /** Putting the two new flags in front of words joined by single spaces, then
      stripping, gives all of them joined by single spaces. */
  lemma PrependedJoin(gb: string, ws: seq<string>)
    requires IsDigits(gb) && forall i :: 0 <= i < |ws| ==> IsWord(ws[i])
    ensures Strip(MemoryPrefix(gb) + JoinSpaced(ws)) ==
            JoinSpaced([FlagFor(MaxPrefix, gb), FlagFor(MinPrefix, gb)] + ws)
  {
    var rx, rs := FlagFor(MaxPrefix, gb), FlagFor(MinPrefix, gb);
    PrefixesAreFlagPrefixes();
    FlagForIsWord(MaxPrefix, gb);
    FlagForIsWord(MinPrefix, gb);
    assert MemoryPrefix(gb) + JoinSpaced(ws) == rx + " " + rs + " " + JoinSpaced(ws);
    StripTwoInFront(rx, rs, ws);
  }

  /** What a successful `set_memory` does to `java_args`: text in, text out; the
      result is in the promised shape (`MemoryArgsOk`); and its tokens are the old
      tokens each rewritten on its own, behind `-Xmx{gb}G -Xms{gb}G` exactly when the
      old text had no `-Xmx`. */
  predicate ArgsRewritten(before: Value, after: Value, gb: string) {
    && before.Str? && after.Str?
    && MemoryArgsOk(after.s, gb)
    && Split(after.s) ==
       if Contains(before.s, MaxPrefix) then RewriteWords(Split(before.s), gb)
       else [FlagFor(MaxPrefix, gb), FlagFor(MinPrefix, gb)] + RewriteWords(Split(before.s), gb)
  }

  /** Why `set_memory` leaves the settings alone. `ArgsNotText` is the `TypeError` that
      `re.sub` raises when `java_args` holds something other than a string; the
      command loop catches it. */
  datatype MemoryError = NotANumber | OutOfRange | ArgsNotText

  /** `RewriteArgs` does what a successful `set_memory` promises of `java_args`. */
  lemma RewriteArgsRewritten(args: string, gb: string)
    requires IsDigits(gb)
    ensures ArgsRewritten(Str(args), Str(RewriteArgs(args, gb)), gb)
  {
    RewriteArgsSound(args, gb);
    SplitRewriteArgs(args, gb);
  }

  /** `set_memory(gb)` (Cobalt_Launcher_Nano_0.7_alpha.py:350-371) on the loaded record. */
  function SetMemory(cfg: Config, gb: string): (r: Result<Config, MemoryError>)
    ensures !IsDigits(gb) <==> r == Failure(NotANumber)
    ensures r == Failure(OutOfRange) <==> IsDigits(gb) && !(1 <= DecimalValue(gb) <= 32)
    ensures r == Failure(ArgsNotText) <==>
              IsDigits(gb) && 1 <= DecimalValue(gb) <= 32 && !Get(cfg, ArgsKey, Str("")).Str?
    ensures r.Success? ==> r.value.Keys == cfg.Keys + {ArgsKey}
    ensures r.Success? ==> forall k :: k in cfg && k != ArgsKey ==> r.value[k] == cfg[k]
    ensures r.Success? ==> ArgsRewritten(Get(cfg, ArgsKey, Str("")), r.value[ArgsKey], gb)
  {
    if !IsDigits(gb) then Failure(NotANumber)
    else if DecimalValue(gb) < 1 || DecimalValue(gb) > 32 then Failure(OutOfRange)
    else match Get(cfg, ArgsKey, Str(""))
      case Str(a) =>
        RewriteArgsRewritten(a, gb);
        Success(cfg[ArgsKey := Str(RewriteArgs(a, gb))])
      case _ => Failure(ArgsNotText)
  }

  /** The record a successful `set_memory` saves: `java_args` rewritten, nothing else touched. */
  lemma SetMemoryValue(cfg: Config, gb: string)
    requires IsDigits(gb) && 1 <= DecimalValue(gb) <= 32
    requires Get(cfg, ArgsKey, Str("")).Str?
    ensures SetMemory(cfg, gb) == Success(cfg[ArgsKey := Str(RewriteArgs(Get(cfg, ArgsKey, Str("")).s, gb))])
  {
  }

  /** A record whose `java_args` are already in the shape `set_memory(gb)` leaves is
      saved back unchanged. */
  lemma SetMemoryFixesOk(cfg: Config, gb: string)
    requires IsDigits(gb) && 1 <= DecimalValue(gb) <= 32
    requires Get(cfg, ArgsKey, Str("")).Str? && MemoryArgsOk(Get(cfg, ArgsKey, Str("")).s, gb)
    ensures SetMemory(cfg, gb) == Success(cfg)
  {
    var a := Get(cfg, ArgsKey, Str("")).s;
    SetMemoryValue(cfg, gb);
    RewriteArgsFixesOk(a, gb);
    assert cfg[ArgsKey := Str(a)] == cfg;
  }

  /** Setting the same memory size twice is the same as setting it once. */
  lemma SetMemoryIdempotent(cfg: Config, gb: string)
    requires IsDigits(gb) && 1 <= DecimalValue(gb) <= 32
    requires Get(cfg, ArgsKey, Str("")).Str?
    ensures SetMemory(cfg, gb).Success?
    ensures SetMemory(SetMemory(cfg, gb).value, gb) == SetMemory(cfg, gb)
  {
    var a1 := RewriteArgs(Get(cfg, ArgsKey, Str("")).s, gb);
    SetMemoryValue(cfg, gb);
    RewriteArgsSound(Get(cfg, ArgsKey, Str("")).s, gb);
    SetMemoryFixesOk(cfg[ArgsKey := Str(a1)], gb);
  }

  /** The two passes applied to their own output change nothing. */
  lemma RewriteArgsTwice(args: string, gb: string)
    requires IsDigits(gb)
    ensures RewriteArgs(RewriteArgs(args, gb), gb) == RewriteArgs(args, gb)
  {
    RewriteArgsSound(args, gb);
    RewriteArgsFixesOk(RewriteArgs(args, gb), gb);
  }


}
