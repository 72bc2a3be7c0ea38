/**
 * The few Python `str` operations the outline code relies on, over `seq<char>`:
 * whitespace, `strip()`, `split('\n')` and `'\n'.join(...)`.
 */
module Strings {

  /** Python's whitespace (`str.isspace()`, and `\s` in a `str` pattern): tab to
      carriage return, the four information separators, space, next line,
      no-break space and the Unicode space and line/paragraph separators. */
  predicate IsSpace(c: char) {
    ('\t' <= c <= '\r') || ('\U{001C}' <= c <= '\U{001F}') || c == ' '
    || c == '\U{0085}' || c == '\U{00A0}' || c == '\U{1680}'
    || ('\U{2000}' <= c <= '\U{200A}') || c == '\U{2028}' || c == '\U{2029}'
    || c == '\U{202F}' || c == '\U{205F}' || c == '\U{3000}'
  }

  /** `s.lstrip()` */
  function StripLeft(s: string): (r: string)
    ensures |r| <= |s| && r == s[|s| - |r|..]
    ensures r == [] || !IsSpace(r[0])
    ensures forall k :: 0 <= k < |s| - |r| ==> IsSpace(s[k])
  {
    if s != [] && IsSpace(s[0]) then StripLeft(s[1..]) else s
  }

  /** `s.rstrip()` */
  function StripRight(s: string): (r: string)
    ensures |r| <= |s| && r == s[..|r|]
    ensures r == [] || !IsSpace(r[|r| - 1])
    ensures forall k :: |r| <= k < |s| ==> IsSpace(s[k])
  {
    if s != [] && IsSpace(s[|s| - 1]) then StripRight(s[..|s| - 1]) else s
  }

  /** `s.strip()`: the input without its leading and trailing whitespace. */
  function Strip(s: string): (r: string)
    ensures r == [] || (!IsSpace(r[0]) && !IsSpace(r[|r| - 1]))
    ensures r == [] <==> forall k :: 0 <= k < |s| ==> IsSpace(s[k])
  {
    StripRight(StripLeft(s))
  }

  /** A label that survives `strip()` unchanged and fits on one line. */
  predicate CleanLabel(s: string) {
    s != [] && '\n' !in s && !IsSpace(s[0]) && !IsSpace(s[|s| - 1])
  }

  /** `strip()` only removes characters, so a single line stays one. */
  lemma StripOneLine(s: string)
    requires '\n' !in s
    ensures '\n' !in Strip(s)
  {
    var l, r := StripLeft(s), Strip(s);
    assert r == l[..|r|];
    forall k | 0 <= k < |r|
      ensures r[k] != '\n'
    {
      assert r[k] == l[k] == s[|s| - |l| + k];
    }
  }

  /** `strip()` is idempotent. */
  lemma StripTwice(s: string)
    ensures Strip(Strip(s)) == Strip(s)
  {
    StripClean(Strip(s));
  }

  /** A non-empty single line that `strip()` leaves alone is a clean label. */
  lemma StrippedClean(t: string)
    requires Strip(t) == t && t != [] && '\n' !in t
    ensures CleanLabel(t)
  {
  }

  lemma StripClean(s: string)
    requires s == [] || (!IsSpace(s[0]) && !IsSpace(s[|s| - 1]))
    ensures Strip(s) == s
  {
  }

  /** Leading whitespace is dropped by `strip()`. */
  lemma {:induction false} StripAfterSpaces(w: string, s: string)
    requires forall k :: 0 <= k < |w| ==> IsSpace(w[k])
    ensures StripLeft(w + s) == StripLeft(s)
    ensures Strip(w + s) == Strip(s)
  {
    if w != [] {
      assert (w + s)[0] == w[0];
      assert (w + s)[1..] == w[1..] + s;
      StripAfterSpaces(w[1..], s);
    } else {
      assert w + s == s;
    }
  }

  /** `sep` repeated `n` times (Python's `sep * n`). */
  function Repeat(sep: string, n: nat): (r: string)
    ensures |r| == n * |sep|
    ensures forall c :: c in r ==> c in sep
  {
    if n == 0 then [] else sep + Repeat(sep, n - 1)
  }

  /** `s.split('\n')`: the pieces between line feeds; never empty. */
  function Split(s: string): (r: seq<string>)
    ensures |r| >= 1
    ensures forall k :: 0 <= k < |r| ==> '\n' !in r[k]
    ensures Join(r) == s
  {
    if s == [] then [[]]
    else
      var rest := Split(s[1..]);
      if s[0] == '\n' then [[]] + rest
      else [[s[0]] + rest[0]] + rest[1..]
  }

  /** `'\n'.join(lines)`: no trailing line feed. */
  function Join(lines: seq<string>): (r: string)
    ensures lines != [] ==> |lines[0]| <= |r| && r[..|lines[0]|] == lines[0]
    ensures |lines| > 1 ==> |lines[0]| < |r| && r[|lines[0]|] == '\n'
  {
    if lines == [] then []
    else if |lines| == 1 then lines[0]
    else lines[0] + "\n" + Join(lines[1..])
  }

  /** Splitting a join of line-feed-free lines gives the lines back. */
  lemma {:induction false} SplitJoin(lines: seq<string>)
    requires |lines| >= 1
    requires forall k :: 0 <= k < |lines| ==> '\n' !in lines[k]
    ensures Split(Join(lines)) == lines
  {
    if |lines| == 1 {
      SplitLine(lines[0], []);
    } else {
      SplitJoin(lines[1..]);
      SplitLine(lines[0], ['\n'] + Join(lines[1..]));
      assert lines[0] + "\n" + Join(lines[1..]) == lines[0] + (['\n'] + Join(lines[1..]));
      assert Split(['\n'] + Join(lines[1..])) == [[]] + lines[1..] by {
        assert (['\n'] + Join(lines[1..]))[1..] == Join(lines[1..]);
      }
    }
  }

  /** A line-feed-free prefix joins the first piece of the split. */
  lemma {:induction false} SplitLine(a: string, rest: string)
    requires '\n' !in a
    requires rest == [] || rest[0] == '\n'
    ensures Split(a + rest) == [a + Split(rest)[0]] + Split(rest)[1..]
    ensures rest == [] ==> Split(a) == [a]
    ensures rest != [] ==> Split(a + rest) == [a] + Split(rest[1..])
  {
    if a == [] {
      assert a + rest == rest;
      if rest != [] {
        assert Split(rest) == [[]] + Split(rest[1..]);
      }
    } else {
      assert (a + rest)[0] == a[0];
      assert (a + rest)[1..] == a[1..] + rest;
      SplitLine(a[1..], rest);
      var tail := Split(a[1..] + rest);
      assert Split(a + rest) == [[a[0]] + tail[0]] + tail[1..];
      assert [a[0]] + (a[1..] + Split(rest)[0]) == a + Split(rest)[0];
      if rest != [] {
        assert Split(rest) == [[]] + Split(rest[1..]);
        assert a + Split(rest)[0] == a;
      }
    }
  }
}
