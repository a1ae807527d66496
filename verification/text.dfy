/**
 The Python `str` operations the kernel relies on, as pure functions over
 `seq<char>`: `strip()`, `splitlines()`, `"".join`, `"\n".join`,
 `str.count` and the decimal rendering of an `int` in an f-string.
 */
module Text {

  /** The characters for which Python's `str.isspace()` holds; `strip()`
      with no argument removes exactly these from both ends. */
  predicate IsSpace(c: char) {
    || ('\U{9}' <= c <= '\U{D}')
    || ('\U{1C}' <= c <= '\U{20}')
    || c == '\U{85}' || c == '\U{A0}' || c == '\U{1680}'
    || ('\U{2000}' <= c <= '\U{200A}')
    || c == '\U{2028}' || c == '\U{2029}' || c == '\U{202F}'
    || c == '\U{205F}' || c == '\U{3000}'
  }

  predicate AllSpace(s: string) {
    forall i | 0 <= i < |s| :: IsSpace(s[i])
  }

  /** `s.lstrip()`: the longest suffix of `s` that does not start with whitespace. */
  function TrimStart(s: string): (r: string)
    ensures |r| <= |s| && r == s[|s| - |r|..]
    ensures AllSpace(s[..|s| - |r|])
    ensures r == [] || !IsSpace(r[0])
  {
    if s != [] && IsSpace(s[0]) then
      var r := TrimStart(s[1..]);
      assert s[..|s| - |r|] == [s[0]] + s[1..][..|s[1..]| - |r|];
      r
    else s
  }

  /** `s.rstrip()`: the longest prefix of `s` that does not end with whitespace. */
  function TrimEnd(s: string): (r: string)
    ensures |r| <= |s| && r == s[..|r|]
    ensures AllSpace(s[|r|..])
    ensures r == [] || !IsSpace(r[|r| - 1])
  {
    if s != [] && IsSpace(s[|s| - 1]) then
      var r := TrimEnd(s[..|s| - 1]);
      assert s[|r|..] == s[..|s| - 1][|r|..] + [s[|s| - 1]];
      r
    else s
  }

  /** `s.strip()`. It is empty exactly when `s` is all whitespace, and
      otherwise starts and ends with a non-whitespace character. */
  function Strip(s: string): (r: string)
    ensures |r| <= |s|
    ensures r == [] <==> AllSpace(s)
    ensures r != [] ==> !IsSpace(r[0]) && !IsSpace(r[|r| - 1])
  {
    var t := TrimStart(s);
    assert s == s[..|s| - |t|] + t;
    TrimEnd(t)
  }

  lemma {:induction false} TrimStartAppend(t: string, u: string)
    requires !AllSpace(t)
    ensures TrimStart(t + u) == TrimStart(t) + u
    decreases |t|
  {
    assert t != [];
    if IsSpace(t[0]) {
      assert (t + u)[1..] == t[1..] + u;
      assert !AllSpace(t[1..]) by {
        var i :| 0 <= i < |t| && !IsSpace(t[i]);
        assert t[1..][i - 1] == t[i];
      }
      TrimStartAppend(t[1..], u);
    }
  }

  lemma TrimEndAppendSpace(x: string, c: char)
    requires IsSpace(c)
    ensures TrimEnd(x + [c]) == TrimEnd(x)
  {
    assert (x + [c])[..|x|] == x;
  }

  lemma AllSpaceAppend(t: string, c: char)
    requires AllSpace(t) && IsSpace(c)
    ensures AllSpace(t + [c])
  {
    forall i | 0 <= i < |t + [c]| ensures IsSpace((t + [c])[i]) {
      if i < |t| {
        assert (t + [c])[i] == t[i];
      }
    }
  }

  /** Stripping ignores one more trailing whitespace character. */
  lemma StripDropsTrailingSpace(t: string, c: char)
    requires IsSpace(c)
    ensures Strip(t + [c]) == Strip(t)
  {
    if AllSpace(t) {
      AllSpaceAppend(t, c);
    } else {
      TrimStartAppend(t, [c]);
      TrimEndAppendSpace(TrimStart(t), c);
    }
  }

  /** `strip()` removes whitespace at the two ends and nothing else: the
      result is a contiguous piece of `s` with only whitespace before and
      after it. Together with the ends `Strip` guarantees, this pins the
      result down. */
  lemma StripRemovesOuterSpace(s: string)
    ensures exists i :: 0 <= i <= |s| - |Strip(s)| && Strip(s) == s[i..i + |Strip(s)|]
                        && AllSpace(s[..i]) && AllSpace(s[i + |Strip(s)|..])
  {
    var t := TrimStart(s);
    var r := TrimEnd(t);
    assert Strip(s) == r;
    InnerPiece(s, t, r);
  }

  /** A prefix `r` of a suffix `t` of `s`, with only whitespace cut off around
      it, is a piece of `s` with only whitespace around it. */
  lemma InnerPiece(s: string, t: string, r: string)
    requires |t| <= |s| && t == s[|s| - |t|..] && AllSpace(s[..|s| - |t|])
    requires |r| <= |t| && r == t[..|r|] && AllSpace(t[|r|..])
    ensures exists i :: 0 <= i <= |s| - |r| && r == s[i..i + |r|]
                        && AllSpace(s[..i]) && AllSpace(s[i + |r|..])
  {
    var i := |s| - |t|;
    assert s[i..i + |r|] == t[..|r|];
    assert s[i + |r|..] == t[|r|..];
  }

  /** Text that neither starts nor ends with whitespace is its own strip. */
  lemma StripUnchanged(s: string)
    requires s != [] ==> !IsSpace(s[0]) && !IsSpace(s[|s| - 1])
    ensures Strip(s) == s
  {
  }

  /** The index of the first `'\n'` in `s`, or `|s|` when there is none. */
  function NewlineIndex(s: string): (i: nat)
    ensures i <= |s|
    ensures i < |s| ==> s[i] == '\n'
    ensures forall k | 0 <= k < i :: s[k] != '\n'
  {
    if s == [] || s[0] == '\n' then 0 else 1 + NewlineIndex(s[1..])
  }

  /** `s.splitlines()` with `'\n'` as the only line boundary: the pieces
      between newlines, with no trailing empty piece for a final newline
      and no pieces at all for the empty string. */
  function SplitLines(s: string): (lines: seq<string>)
    ensures lines == [] <==> s == []
    ensures forall k | 0 <= k < |lines| :: '\n' !in lines[k]
    decreases |s|
  {
    if s == [] then []
    else
      var i := NewlineIndex(s);
      if i == |s| then [s] else [s[..i]] + SplitLines(s[i + 1..])
  }

  /** `"\n".join(lines)`. */
  function JoinLines(lines: seq<string>): string {
    if lines == [] then []
    else if |lines| == 1 then lines[0]
    else lines[0] + "\n" + JoinLines(lines[1..])
  }

  /** The first line of `s`: everything before its first newline. */
  function FirstLine(s: string): string {
    s[..NewlineIndex(s)]
  }

  /** Everything after the first newline of `s` (empty when there is none). */
  function AfterFirstLine(s: string): string {
    var i := NewlineIndex(s);
    if i < |s| then s[i + 1..] else []
  }

  /** `splitlines()` peels off the first line and splits the rest alone; so
      `s.splitlines()[0]` is the first line and `s.splitlines()[1:]` is
      non-empty exactly when something follows the first newline. */
  lemma SplitLinesFirst(s: string)
    requires s != []
    ensures SplitLines(s) == [FirstLine(s)] + SplitLines(AfterFirstLine(s))
    ensures |SplitLines(s)| > 1 <==> AfterFirstLine(s) != []
  {
    var i := NewlineIndex(s);
    if i == |s| {
      assert s[..i] == s;
    }
  }

  /** `s` less one final newline, if it ends with one. */
  function DropFinalNewline(s: string): string {
    if s != [] && s[|s| - 1] == '\n' then s[..|s| - 1] else s
  }

  lemma DropFinalNewlineAfterLine(a: string, rest: string)
    requires rest != []
    ensures DropFinalNewline(a + "\n" + rest) == a + "\n" + DropFinalNewline(rest)
  {
    var s := a + "\n" + rest;
    if rest[|rest| - 1] == '\n' {
      assert s[..|s| - 1] == a + "\n" + rest[..|rest| - 1];
    }
  }

  /** Joining the lines of `s` with `'\n'` gives `s` back, less one final newline. */
  lemma {:induction false} JoinSplitLines(s: string)
    ensures JoinLines(SplitLines(s)) == DropFinalNewline(s)
    decreases |s|
  {
    if s != [] {
      var i := NewlineIndex(s);
      if i == |s| {
        assert s[..i] == s;
      } else {
        var rest := s[i + 1..];
        assert s == s[..i] + "\n" + rest;
        if rest == [] {
          assert SplitLines(s) == [s[..i]];
        } else {
          JoinSplitLines(rest);
          JoinLinesCons(s[..i], SplitLines(rest));
          DropFinalNewlineAfterLine(s[..i], rest);
        }
      }
    }
  }

  lemma JoinLinesCons(line: string, lines: seq<string>)
    requires lines != []
    ensures JoinLines([line] + lines) == line + "\n" + JoinLines(lines)
  {
    assert ([line] + lines)[1..] == lines;
  }

  lemma NewlineIndexAfterLine(a: string, b: string)
    requires '\n' !in a
    ensures NewlineIndex(a + "\n" + b) == |a|
  {
    var s := a + "\n" + b;
    assert s[|a|] == '\n';
    assert forall k | 0 <= k < |a| :: s[k] == a[k];
  }

  lemma NewlineIndexNone(a: string)
    requires '\n' !in a
    ensures NewlineIndex(a) == |a|
  {
  }

  /** Splitting `"\n".join(lines)` recovers `lines`, provided no line holds a
      newline and the last line is not empty (a final empty line would leave
      a trailing newline, which `splitlines()` drops). */
  lemma {:induction false} SplitJoinLines(lines: seq<string>)
    requires forall k | 0 <= k < |lines| :: '\n' !in lines[k]
    requires lines != [] ==> lines[|lines| - 1] != []
    ensures SplitLines(JoinLines(lines)) == lines
    decreases |lines|
  {
    if lines != [] {
      var l0 := lines[0];
      assert '\n' !in l0;
      if |lines| == 1 {
        NewlineIndexNone(l0);
        assert l0[..|l0|] == l0;
      } else {
        var rest := lines[1..];
        assert forall k | 0 <= k < |rest| :: '\n' !in rest[k] by {
          forall k | 0 <= k < |rest| ensures '\n' !in rest[k] {
            assert rest[k] == lines[k + 1];
          }
        }
        SplitJoinLines(rest);
        var s := l0 + "\n" + JoinLines(rest);
        NewlineIndexAfterLine(l0, JoinLines(rest));
        assert s[..|l0|] == l0;
        assert s[|l0| + 1..] == JoinLines(rest);
        assert lines == [l0] + rest;
      }
    }
  }

  /** `"".join(parts)`. */
  function Concat(parts: seq<string>): string {
    if parts == [] then [] else parts[0] + Concat(parts[1..])
  }

  lemma ConcatSingleton(x: string)
    ensures Concat([x]) == x
  {
    assert [x][1..] == [];
  }

  lemma {:induction false} ConcatAppend(parts: seq<string>, x: string)
    ensures Concat(parts + [x]) == Concat(parts) + x
  {
    if parts != [] {
      assert (parts + [x])[1..] == parts[1..] + [x];
      ConcatAppend(parts[1..], x);
    }
  }

  /** The rendering of a list of entries only grows when entries are added at its end. */
  lemma {:induction false} ConcatMonotonic(a: seq<string>, b: seq<string>)
    requires a <= b
    ensures Concat(a) <= Concat(b)
    decreases |a|
  {
    if a != [] {
      assert a[1..] <= b[1..];
      ConcatMonotonic(a[1..], b[1..]);
    }
  }

  /** `s.count(c)` for a single character `c`. */
  function Count(s: string, c: char): (n: nat)
    ensures n <= |s|
  {
    if s == [] then 0 else (if s[0] == c then 1 else 0) + Count(s[1..], c)
  }

  /** The count agrees with the multiplicity of `c` in the multiset of `s`. */
  lemma {:induction false} CountIsMultiplicity(s: string, c: char)
    ensures Count(s, c) == multiset(s)[c]
  {
    if s != [] {
      CountIsMultiplicity(s[1..], c);
      assert s == [s[0]] + s[1..];
      assert multiset(s) == multiset([s[0]]) + multiset(s[1..]);
    }
  }

  lemma {:induction false} CountAppend(a: string, b: string, c: char)
    ensures Count(a + b, c) == Count(a, c) + Count(b, c)
  {
    if a != [] {
      var ab := a + b;
      assert ab[0] == a[0];
      assert ab[1..] == a[1..] + b;
      CountAppend(a[1..], b, c);
      assert Count(ab, c) == (if a[0] == c then 1 else 0) + Count(ab[1..], c);
    } else {
      assert a + b == b;
    }
  }

  predicate IsDigit(c: char) {
    '0' <= c <= '9'
  }

  function DigitChar(d: nat): (c: char)
    requires d < 10
    ensures IsDigit(c) && c as int - '0' as int == d
  {
    "0123456789"[d]
  }

  /** The decimal rendering of `n`, as `f"{n}"` produces it. */
  function NatToString(n: nat): (s: string)
    ensures s != []
    ensures forall k | 0 <= k < |s| :: IsDigit(s[k])
    ensures |s| > 1 ==> s[0] != '0'
  {
    if n < 10 then [DigitChar(n)] else NatToString(n / 10) + [DigitChar(n % 10)]
  }

  function DigitValue(c: char): (d: nat)
    requires IsDigit(c)
    ensures d < 10
  {
    c as int - '0' as int
  }

  /** The value of a string of decimal digits. */
  function DecimalValue(s: string): nat
    requires forall k | 0 <= k < |s| :: IsDigit(s[k])
  {
    if s == [] then 0
    else 10 * DecimalValue(s[..|s| - 1]) + DigitValue(s[|s| - 1])
  }

  /** Reading back the rendering of `n` gives `n`. */
  lemma {:induction false} DecimalRoundTrip(n: nat)
    ensures DecimalValue(NatToString(n)) == n
  {
    if n >= 10 {
      DecimalRoundTrip(n / 10);
      var s := NatToString(n);
      assert s[..|s| - 1] == NatToString(n / 10);
    }
  }
}
