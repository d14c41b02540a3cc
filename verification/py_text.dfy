/**
 * The pieces of Python's `str` that the search window relies on:
 * `str.strip()` with no argument, `str.splitlines()`, and the `<` ordering
 * of strings (by code point, the shorter prefix first).
 */
module PyText {

  /** `str.isspace()` for a single character. */
  predicate IsSpace(c: char) {
    var k := c as int;
    || 0x09 <= k <= 0x0D
    || 0x1C <= k <= 0x20
    || k == 0x85 || k == 0xA0 || k == 0x1680
    || 0x2000 <= k <= 0x200A
    || k == 0x2028 || k == 0x2029 || k == 0x202F || k == 0x205F || k == 0x3000
  }

  predicate AllSpace(s: string) {
    forall i :: 0 <= i < |s| ==> IsSpace(s[i])
  }

  /** The number of whitespace characters `s.lstrip()` removes. */
  function LeadingSpace(s: string): (k: nat)
    ensures k <= |s|
    ensures forall i :: 0 <= i < k ==> IsSpace(s[i])
    ensures k < |s| ==> !IsSpace(s[k])
    decreases |s|
  {
    if s == [] || !IsSpace(s[0]) then 0 else 1 + LeadingSpace(s[1..])
  }

  /** The number of whitespace characters `s.rstrip()` removes. */
  function TrailingSpace(s: string): (k: nat)
    ensures k <= |s|
    ensures forall i :: |s| - k <= i < |s| ==> IsSpace(s[i])
    ensures k < |s| ==> !IsSpace(s[|s| - k - 1])
    decreases |s|
  {
    if s == [] || !IsSpace(s[|s| - 1]) then 0 else 1 + TrailingSpace(s[..|s| - 1])
  }

  /** `s.strip()`: the whitespace at both ends removed. */
  function Strip(s: string): string {
    var t := s[LeadingSpace(s)..];
    t[..|t| - TrailingSpace(t)]
  }

  /**
   * `s.strip()` is an infix of `s` with whitespace only around it and none at
   * either end; it is empty exactly when `s` is all whitespace.
   */
  lemma StripShape(s: string)
    ensures var r := Strip(s);
      && (r != [] ==> !IsSpace(r[0]) && !IsSpace(r[|r| - 1]))
      && exists i :: 0 <= i <= |s| - |r| && s[i..i + |r|] == r
           && AllSpace(s[..i]) && AllSpace(s[i + |r|..])
    ensures Strip(s) == [] <==> AllSpace(s)
  {
    var l := LeadingSpace(s);
    var t := s[l..];
    var k := TrailingSpace(t);
    var r := Strip(s);
    assert |r| == |s| - l - k;
    assert s[l..l + |r|] == r;
    assert AllSpace(s[..l]);
    assert s[l + |r|..] == t[|t| - k..];
    if r != [] {
      assert r[0] == s[l];
      assert r[|r| - 1] == t[|t| - k - 1];
    } else {
      assert s[..l] == s;
    }
  }

  /** The characters `str.splitlines()` treats as line boundaries. */
  predicate IsLineBreak(c: char) {
    var k := c as int;
    || k == 0x0A || k == 0x0B || k == 0x0C || k == 0x0D
    || 0x1C <= k <= 0x1E
    || k == 0x85 || k == 0x2028 || k == 0x2029
  }

  predicate NoBreak(s: string) {
    forall i :: 0 <= i < |s| ==> !IsLineBreak(s[i])
  }

  /** The index of the first line boundary in `s`, or `|s|` if there is none. */
  function FirstBreak(s: string): (i: nat)
    ensures i <= |s| && NoBreak(s[..i])
    ensures i < |s| ==> IsLineBreak(s[i])
    decreases |s|
  {
    if s == [] || IsLineBreak(s[0]) then 0 else 1 + FirstBreak(s[1..])
  }

  /**
   * `s.splitlines()`: the lines of `s` without their boundaries; `"\r\n"` is
   * one boundary, and a boundary at the very end does not start another line.
   */
  function SplitLines(s: string): (lines: seq<string>)
    ensures forall k :: 0 <= k < |lines| ==> NoBreak(lines[k])
    decreases |s|
  {
    if s == [] then []
    else
      var i := FirstBreak(s);
      if i == |s| then [s]
      else
        var width := if s[i] == '\r' && i + 1 < |s| && s[i + 1] == '\n' then 2 else 1;
        [s[..i]] + SplitLines(s[i + width..])
  }

  /** The lines joined, each followed by a newline. */
  function Terminated(lines: seq<string>): string {
    if lines == [] then [] else lines[0] + "\n" + Terminated(lines[1..])
  }

  /**
   * Splitting newline-terminated lines, with an optional unterminated last
   * line, gives those lines back; an empty last part adds no line.
   */
  lemma {:induction false} SplitTerminated(lines: seq<string>, last: string)
    requires forall k :: 0 <= k < |lines| ==> NoBreak(lines[k])
    requires NoBreak(last)
    ensures SplitLines(Terminated(lines) + last) == lines + (if last == [] then [] else [last])
    decreases |lines|
  {
    var tail := if last == [] then [] else [last];
    if lines == [] {
      assert Terminated(lines) + last == last;
      if last != [] {
        assert FirstBreak(last) == |last|;
      }
    } else {
      var l := lines[0];
      var rest := Terminated(lines[1..]) + last;
      var s := Terminated(lines) + last;
      assert s == l + "\n" + rest;
      calc {
        SplitLines(s);
        { FirstBreakAt(l, rest); assert s[|l|] == '\n'; }
        [s[..|l|]] + SplitLines(s[|l| + 1..]);
        { assert s[..|l|] == l; assert s[|l| + 1..] == rest; }
        [l] + SplitLines(rest);
        { SplitTerminated(lines[1..], last); }
        [l] + (lines[1..] + tail);
        { assert lines == [l] + lines[1..]; }
        lines + tail;
      }
    }
  }

  lemma {:induction false} FirstBreakAt(l: string, rest: string)
    requires NoBreak(l)
    ensures FirstBreak(l + "\n" + rest) == |l|
    decreases |l|
  {
    if l != [] {
      assert (l + "\n" + rest)[1..] == l[1..] + "\n" + rest;
      FirstBreakAt(l[1..], rest);
    } else {
      assert (l + "\n" + rest)[0] == '\n';
    }
  }

  /** Python's `a < b` on strings: code point by code point, a proper prefix first. */
  predicate LexLess(a: string, b: string)
    decreases |a|
  {
    if a == [] then b != []
    else if b == [] then false
    else if a[0] != b[0] then a[0] < b[0]
    else LexLess(a[1..], b[1..])
  }

  lemma {:induction false} LexIrreflexive(a: string)
    ensures !LexLess(a, a)
    decreases |a|
  {
    if a != [] {
      LexIrreflexive(a[1..]);
    }
  }

  lemma {:induction false} LexTransitive(a: string, b: string, c: string)
    requires LexLess(a, b) && LexLess(b, c)
    ensures LexLess(a, c)
    decreases |a|
  {
    if a != [] && b != [] && c != [] && a[0] == b[0] && b[0] == c[0] {
      LexTransitive(a[1..], b[1..], c[1..]);
    }
  }

  /** Any two different strings are ordered one way or the other. */
  lemma {:induction false} LexTotal(a: string, b: string)
    requires a != b
    ensures LexLess(a, b) || LexLess(b, a)
    decreases |a|
  {
    if a != [] && b != [] && a[0] == b[0] {
      assert a == [a[0]] + a[1..] && b == [b[0]] + b[1..];
      LexTotal(a[1..], b[1..]);
    }
  }
}
