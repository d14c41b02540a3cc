/**
 * Decimal text for non-negative integers, as Python's format specifications
 * produce it: plain digits (`f"{n}"`), digits grouped by three with commas
 * (`f"{n:,}"`), and fixed-point text with a given number of places (`f"{x:.2f}"`),
 * together with the readers that take such text back to a number.
 */
module Decimal {
  import opened Wrappers

  predicate IsDigit(c: char) {
    '0' <= c <= '9'
  }

  predicate AllDigits(s: seq<char>) {
    forall i :: 0 <= i < |s| ==> IsDigit(s[i])
  }

  function DigitValue(c: char): (d: nat)
    requires IsDigit(c)
    ensures d < 10
  {
    c as int - '0' as int
  }

  function DigitChar(d: nat): (c: char)
    requires d < 10
    ensures IsDigit(c) && DigitValue(c) == d
  {
    ('0' as int + d) as char
  }

  function Pow10(k: nat): (p: nat)
    ensures p >= 1
  {
    if k == 0 then 1 else 10 * Pow10(k - 1)
  }

  /** The distance between two integers. */
  function Dist(a: int, b: int): nat {
    if a >= b then a - b else b - a
  }

  /** The shortest decimal text of `n`: at least one digit, no leading zero. */
  function Digits(n: nat): (s: seq<char>)
    ensures s != [] && AllDigits(s)
    ensures s[0] == '0' ==> n == 0 && |s| == 1
    decreases n
  {
    if n < 10 then [DigitChar(n)] else Digits(n / 10) + [DigitChar(n % 10)]
  }

  /** The value of a string of decimal digits (the empty string reads as 0). */
  function Parse(s: seq<char>): nat
    requires AllDigits(s)
    decreases |s|
  {
    if s == [] then 0 else Parse(s[..|s| - 1]) * 10 + DigitValue(s[|s| - 1])
  }

  /** `s` with every occurrence of `c` removed. */
  function Without(s: seq<char>, c: char): (r: seq<char>)
    ensures c !in r && |r| <= |s|
    decreases |s|
  {
    if s == [] then []
    else Without(s[..|s| - 1], c) + (if s[|s| - 1] == c then [] else [s[|s| - 1]])
  }

  function Zeros(k: nat): (z: seq<char>)
    ensures |z| == k && AllDigits(z)
  {
    if k == 0 then [] else Zeros(k - 1) + ['0']
  }

  /** Left-pads `s` with zeros to `width` characters. */
  function ZeroPad(s: seq<char>, width: nat): seq<char> {
    if |s| < width then Zeros(width - |s|) + s else s
  }

  /** Thousands grouping: a comma before every third digit, counted from the right. */
  function Group(d: seq<char>): seq<char>
    decreases |d|
  {
    if |d| <= 3 then d else Group(d[..|d| - 3]) + [','] + d[|d| - 3..]
  }

  /**
   * The shape of grouped text, stated independently of `Group`: every fourth
   * character counted from the right is a comma, every other one a digit, and
   * the text neither starts with a comma nor is empty.
   */
  predicate WellGrouped(s: seq<char>) {
    && |s| % 4 != 0
    && forall i :: 0 <= i < |s| ==> if (|s| - i) % 4 == 0 then s[i] == ',' else IsDigit(s[i])
  }

  /** A decimal numeral as Python prints an integer: digits, and no leading zero unless it is "0" itself. */
  predicate Numeral(s: seq<char>) {
    s != [] && AllDigits(s) && (s[0] == '0' ==> |s| == 1)
  }

  /**
   * The shape of `.Nf` text with `places` decimals: a numeral, then, when
   * `places` is positive, a point followed by exactly `places` digits.
   */
  predicate FixedText(s: seq<char>, places: nat) {
    if places == 0 then Numeral(s)
    else
      && |s| >= places + 2
      && s[|s| - places - 1] == '.'
      && Numeral(s[..|s| - places - 1])
      && AllDigits(s[|s| - places..])
  }

  /** Fixed-point text of `q / 10^places` with exactly `places` digits after the point. */
  function Fixed(q: nat, places: nat): seq<char> {
    if places == 0 then Digits(q)
    else
      var p := Pow10(places);
      DivMod(q, p);
      Digits(q / p) + ['.'] + ZeroPad(Digits(q % p), places)
  }

  /**
   * Reads displayed number text back as an integer: thousands separators and
   * the decimal point are dropped and the remaining digits are parsed, so a
   * fixed-point text with k places reads as its value times 10^k.
   */
  function ReadNumber(s: seq<char>): (r: Option<nat>)
    ensures r.Some? ==> Without(Without(s, ','), '.') != []
  {
    var digits := Without(Without(s, ','), '.');
    if digits != [] && AllDigits(digits) then Some(Parse(digits)) else None
  }

  /**
   * Round-half-even of `num / den`: the integer nearest to the quotient, and
   * the even one of the two when the quotient lies exactly half-way.
   */
  function RoundHalfEven(num: nat, den: nat): (q: nat)
    requires den > 0
    ensures 2 * Dist(num, q * den) <= den
    ensures 2 * Dist(num, q * den) == den ==> q % 2 == 0
  {
    DivMod(num, den);
    var q0, r := num / den, num % den;
    if 2 * r < den || (2 * r == den && q0 % 2 == 0) then
      assert Dist(num, q0 * den) == r;
      q0
    else
      assert (q0 + 1) * den == q0 * den + den;
      assert Dist(num, (q0 + 1) * den) == den - r;
      q0 + 1
  }

  lemma DivMod(n: nat, d: nat)
    requires d > 0
    ensures n / d >= 0 && 0 <= n % d < d && n == (n / d) * d + n % d
  {
  }

  lemma MulMonotone(a: nat, b: nat, c: nat)
    requires a <= b
    ensures a * c <= b * c
  {
  }

  /** No integer multiple of `den` lies nearer to `num` than the rounded one. */
  lemma RoundIsNearest(num: nat, den: nat, k: nat)
    requires den > 0
    ensures Dist(num, RoundHalfEven(num, den) * den) <= Dist(num, k * den)
  {
    var q := RoundHalfEven(num, den);
    if k > q {
      MulMonotone(q + 1, k, den);
      assert (q + 1) * den == q * den + den;
    } else if k < q {
      MulMonotone(k + 1, q, den);
      assert (k + 1) * den == k * den + den;
    }
  }

  lemma {:induction false} ParseDigits(n: nat)
    ensures Parse(Digits(n)) == n
    decreases n
  {
    if n >= 10 {
      var s := Digits(n);
      assert s[..|s| - 1] == Digits(n / 10);
      ParseDigits(n / 10);
    }
  }

  /** A number below 10^k has at most k digits. */
  lemma {:induction false} DigitsLength(n: nat, k: nat)
    requires 1 <= k && n < Pow10(k)
    ensures |Digits(n)| <= k
    decreases n
  {
    if n >= 10 {
      assert k >= 2;
      assert n / 10 < Pow10(k - 1);
      DigitsLength(n / 10, k - 1);
    }
  }

  lemma {:induction false} ParseAppend(a: seq<char>, b: seq<char>)
    requires AllDigits(a) && AllDigits(b)
    ensures AllDigits(a + b)
    ensures Parse(a + b) == Parse(a) * Pow10(|b|) + Parse(b)
    decreases |b|
  {
    if b == [] {
      assert a + b == a;
    } else {
      var b' := b[..|b| - 1];
      assert (a + b)[..|a + b| - 1] == a + b';
      assert (a + b)[|a + b| - 1] == b[|b| - 1];
      ParseAppend(a, b');
      ShiftDigit(Parse(a), Pow10(|b'|), Parse(b'), DigitValue(b[|b| - 1]));
    }
  }

  lemma ShiftDigit(x: nat, p: nat, y: nat, d: nat)
    ensures (x * p + y) * 10 + d == x * (p * 10) + (y * 10 + d)
  {
  }

  lemma {:induction false} ParseZeros(k: nat)
    ensures Parse(Zeros(k)) == 0
  {
    if k > 0 {
      var z := Zeros(k);
      assert z[..|z| - 1] == Zeros(k - 1);
      ParseZeros(k - 1);
    }
  }

  lemma {:induction false} WithoutAppend(a: seq<char>, b: seq<char>, c: char)
    ensures Without(a + b, c) == Without(a, c) + Without(b, c)
    decreases |b|
  {
    if b == [] {
      assert a + b == a;
    } else {
      var b' := b[..|b| - 1];
      assert (a + b)[..|a + b| - 1] == a + b';
      WithoutAppend(a, b', c);
    }
  }

  lemma {:induction false} WithoutAbsent(s: seq<char>, c: char)
    requires c !in s
    ensures Without(s, c) == s
    decreases |s|
  {
    if s != [] {
      assert c !in s[..|s| - 1];
      WithoutAbsent(s[..|s| - 1], c);
    }
  }

  lemma DigitsHaveNo(s: seq<char>, c: char)
    requires AllDigits(s) && !IsDigit(c)
    ensures c !in s
  {
  }

  /** Dropping the commas of grouped digits gives the digits back. */
  lemma {:induction false} UngroupGroup(d: seq<char>)
    requires AllDigits(d)
    ensures Without(Group(d), ',') == d
    decreases |d|
  {
    if |d| <= 3 {
      DigitsHaveNo(d, ',');
      WithoutAbsent(d, ',');
    } else {
      var hi, lo := d[..|d| - 3], d[|d| - 3..];
      var g := Group(hi);
      calc {
        Without(Group(d), ',');
        Without(g + [','] + lo, ',');
        { assert AllDigits(lo); WithoutComma(g, lo); }
        Without(g, ',') + lo;
        { assert AllDigits(hi); UngroupGroup(hi); }
        hi + lo;
        { assert hi + lo == d; }
        d;
      }
    }
  }

  lemma WithoutComma(g: seq<char>, lo: seq<char>)
    requires AllDigits(lo)
    ensures Without(g + [','] + lo, ',') == Without(g, ',') + lo
  {
    assert Without(g + [','], ',') == Without(g, ',') by {
      WithoutAppend(g, [','], ',');
      WithoutSingle(',');
    }
    assert Without(lo, ',') == lo by {
      DigitsHaveNo(lo, ',');
      WithoutAbsent(lo, ',');
    }
    WithoutAppend(g + [','], lo, ',');
  }

  lemma WithoutSingle(c: char)
    ensures Without([c], c) == []
  {
    assert [c][..0] == [];
  }

  lemma ModFour(x: nat)
    ensures (x + 4) % 4 == x % 4
    ensures 0 < x < 4 ==> x % 4 != 0
  {
  }

  /** Grouping digits yields well-grouped text with one comma per full group of three. */
  lemma {:induction false} GroupShape(d: seq<char>)
    requires d != [] && AllDigits(d)
    ensures WellGrouped(Group(d))
    ensures |Group(d)| == |d| + (|d| - 1) / 3
    ensures Group(d)[0] == d[0]
    decreases |d|
  {
    if |d| > 3 {
      var hi, lo := d[..|d| - 3], d[|d| - 3..];
      GroupShape(hi);
      var g, s := Group(hi), Group(d);
      assert s == g + [','] + lo;
      assert s[0] == g[0] == hi[0];
      assert |s| == |g| + 4;
      ModFour(|g|);
      forall i | 0 <= i < |s|
        ensures if (|s| - i) % 4 == 0 then s[i] == ',' else IsDigit(s[i])
      {
        if i < |g| {
          assert s[i] == g[i];
          ModFour(|g| - i);
        } else if i == |g| {
        } else {
          assert s[i] == lo[i - |g| - 1];
          ModFour(|s| - i);
        }
      }
    }
  }

  /** Grouped digits read back as the number they group, and start with a zero only for zero. */
  lemma ReadGrouped(n: nat)
    ensures WellGrouped(Group(Digits(n)))
    ensures Group(Digits(n))[0] == '0' ==> n == 0
    ensures ReadNumber(Group(Digits(n))) == Some(n)
  {
    var d := Digits(n);
    GroupShape(d);
    UngroupGroup(d);
    DigitsHaveNo(d, '.');
    WithoutAbsent(d, '.');
    ParseDigits(n);
  }

  /** The digits after the point: `r` zero-padded to exactly `places` digits. */
  lemma FractionDigits(r: nat, places: nat)
    requires 1 <= places && r < Pow10(places)
    ensures var f := ZeroPad(Digits(r), places);
      |f| == places && AllDigits(f) && Parse(f) == r
  {
    var d := Digits(r);
    DigitsLength(r, places);
    var k := places - |d|;
    assert ZeroPad(d, places) == Zeros(k) + d by {
      if k == 0 {
        assert Zeros(k) + d == d;
      }
    }
    ParseLeadingZeros(k, d);
    ParseDigits(r);
  }

  lemma ParseLeadingZeros(k: nat, d: seq<char>)
    requires AllDigits(d)
    ensures AllDigits(Zeros(k) + d) && Parse(Zeros(k) + d) == Parse(d)
  {
    ParseAppend(Zeros(k), d);
    ParseZeros(k);
    assert 0 * Pow10(|d|) == 0;
  }

  /** Digits, a point and digits read back as the digits without the point. */
  lemma ReadPointed(a: seq<char>, f: seq<char>)
    requires a != [] && AllDigits(a) && AllDigits(f)
    ensures ',' !in a + ['.'] + f
    ensures AllDigits(a + f)
    ensures ReadNumber(a + ['.'] + f) == Some(Parse(a + f))
  {
    var t := a + ['.'] + f;
    assert ',' !in t by {
      DigitsHaveNo(a, ',');
      DigitsHaveNo(f, ',');
    }
    assert Without(t, ',') == t by {
      WithoutAbsent(t, ',');
    }
    var ap := a + ['.'];
    assert Without(ap, '.') == a by {
      WithoutAppend(a, ['.'], '.');
      WithoutSingle('.');
      DigitsHaveNo(a, '.');
      WithoutAbsent(a, '.');
    }
    assert Without(f, '.') == f by {
      DigitsHaveNo(f, '.');
      WithoutAbsent(f, '.');
    }
    assert Without(t, '.') == a + f by {
      WithoutAppend(ap, f, '.');
    }
    assert AllDigits(a + f) && a + f != [] by {
      ParseAppend(a, f);
    }
  }

  /**
   * Fixed-point text: a numeral with no leading zero, followed, when there are
   * places, by the point and exactly `places` digits; it holds no comma, and
   * it reads back as `q`.
   */
  lemma FixedShape(q: nat, places: nat)
    ensures var t := Fixed(q, places);
      && ',' !in t
      && FixedText(t, places)
      && ReadNumber(t) == Some(q)
  {
    if places == 0 {
      PlainShape(q);
    } else {
      PointedShape(q, places);
    }
  }

  lemma PlainShape(q: nat)
    ensures var t := Digits(q);
      ',' !in t && ReadNumber(t) == Some(q)
  {
    var t := Digits(q);
    DigitsHaveNo(t, ',');
    DigitsHaveNo(t, '.');
    WithoutAbsent(t, ',');
    WithoutAbsent(t, '.');
    ParseDigits(q);
  }

  lemma PointedShape(q: nat, places: nat)
    requires places > 0
    ensures var t := Fixed(q, places);
      && ',' !in t
      && FixedText(t, places)
      && ReadNumber(t) == Some(q)
  {
    var p := Pow10(places);
    DivMod(q, p);
    var a, f := Digits(q / p), ZeroPad(Digits(q % p), places);
    var t := Fixed(q, places);
    assert t == a + ['.'] + f;
    FractionDigits(q % p, places);
    assert t[..|t| - places - 1] == a;
    assert t[|t| - places..] == f;
    ReadPointed(a, f);
    assert Parse(a + f) == q by {
      ParseAppend(a, f);
      ParseDigits(q / p);
    }
  }
}
