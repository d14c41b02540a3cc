/**
 * The two size texts of the search window: `format_size_kb`, shown in the
 * size column, and `format_size_full`, shown in the status line for the
 * selected row.
 */
module SizeFormat {
  import opened Wrappers
  import opened Decimal

  const KiB: nat := 1024
  const MiB: nat := 1024 * 1024
  const GiB: nat := 1024 * 1024 * 1024

  datatype Unit = B | KB | MB | GB

  /** The suffix each unit is shown with, including the separating space. */
  function Suffix(u: Unit): string {
    match u
    case B => " B"
    case KB => " KB"
    case MB => " MB"
    case GB => " GB"
  }

  /** How many bytes one unit stands for. */
  function Scale(u: Unit): nat {
    match u
    case B => 1
    case KB => KiB
    case MB => MiB
    case GB => GiB
  }

  /** Digits after the decimal point in the full text of each unit. */
  function Places(u: Unit): nat {
    match u
    case B => 0
    case KB => 0
    case MB => 1
    case GB => 2
  }

  function Rank(u: Unit): nat {
    match u
    case B => 0
    case KB => 1
    case MB => 2
    case GB => 3
  }

  /** `format_size_kb`: whole kibibytes, at least one, grouped with commas. */
  function FormatSizeKb(n: nat): string {
    var kb := if n / KiB < 1 then 1 else n / KiB;
    Group(Digits(kb)) + " KB"
  }

  /** The unit `format_size_full` picks for `n` bytes. */
  function UnitFor(n: nat): Unit {
    if n < KiB then B
    else if n < MiB then KB
    else if n < GiB then MB
    else GB
  }

  /**
   * `format_size_full`: exact grouped bytes below 1024; above, the quotient
   * by the unit's scale with 0, 1 or 2 decimals, rounded half to even.
   */
  function FormatSizeFull(n: nat): string {
    if n < KiB then Group(Digits(n)) + " B"
    else if n < MiB then Fixed(RoundHalfEven(n, KiB), 0) + " KB"
    else if n < GiB then Fixed(RoundHalfEven(n * 10, MiB), 1) + " MB"
    else Fixed(RoundHalfEven(n * 100, GiB), 2) + " GB"
  }

  /** The unit a size text ends with, if any (longest suffix first). */
  function UnitOf(t: string): Option<Unit> {
    if |t| >= 3 && t[|t| - 3..] == " KB" then Some(KB)
    else if |t| >= 3 && t[|t| - 3..] == " MB" then Some(MB)
    else if |t| >= 3 && t[|t| - 3..] == " GB" then Some(GB)
    else if |t| >= 2 && t[|t| - 2..] == " B" then Some(B)
    else None
  }

  /**
   * Reads a size text back: its unit, and its number as an integer (thousands
   * separators and the decimal point dropped, so "1.50 GB" reads as 150).
   */
  function ReadSize(t: string): Option<(nat, Unit)> {
    match UnitOf(t)
    case None => None
    case Some(u) =>
      match ReadNumber(t[..|t| - |Suffix(u)|])
      case None => None
      case Some(q) => Some((q, u))
  }

  lemma UnitOfSuffix(num: seq<char>, u: Unit)
    requires num != [] && IsDigit(num[|num| - 1])
    ensures UnitOf(num + Suffix(u)) == Some(u)
  {
    var t := num + Suffix(u);
    match u
    case B =>
      assert t[|t| - 3] == num[|num| - 1];
      assert t[|t| - 2..] == " B";
    case KB =>
      assert t[|t| - 3..] == " KB";
    case MB =>
      assert t[|t| - 3..] == " MB";
    case GB =>
      assert t[|t| - 3..] == " GB";
  }

  /** A number text followed by a unit suffix reads back as that number and unit. */
  lemma ReadSizeOf(num: seq<char>, u: Unit, q: nat)
    requires num != [] && IsDigit(num[|num| - 1])
    requires ReadNumber(num) == Some(q)
    ensures ReadSize(num + Suffix(u)) == Some((q, u))
  {
    var t := num + Suffix(u);
    UnitOfSuffix(num, u);
    assert t[..|t| - |Suffix(u)|] == num;
  }

  /**
   * `format_size_kb(n)` reads back as KB and as `max(1, n // 1024)`, the
   * number being well-grouped digits.
   */
  lemma KbTextReadsBack(n: nat)
    ensures var t := FormatSizeKb(n);
      && |t| > 3
      && WellGrouped(t[..|t| - 3])
      && t[0] != '0'
      && ReadSize(t) == Some((if n / 1024 < 1 then 1 else n / 1024, KB))
  {
    var kb := if n / KiB < 1 then 1 else n / KiB;
    var g := Group(Digits(kb));
    ReadGrouped(kb);
    assert IsDigit(g[|g| - 1]) by {
      assert (|g| - (|g| - 1)) % 4 != 0;
    }
    ReadSizeOf(g, KB, kb);
    var t := FormatSizeKb(n);
    assert t[..|t| - 3] == g;
  }

  /** Every size below two kibibytes, zero included, is shown as "1 KB". */
  lemma KbTextSmall(n: nat)
    requires n < 2 * KiB
    ensures FormatSizeKb(n) == "1 KB"
  {
    assert Digits(1) == "1";
  }

  lemma DivMonotone(n: nat, m: nat, d: nat)
    requires n <= m && d > 0
    ensures n / d <= m / d
  {
    DivMod(n, d);
    DivMod(m, d);
    if n / d > m / d {
      MulMonotone(m / d + 1, n / d, d);
      assert false;
    }
  }

  /** The number shown in the size column never decreases as the size grows. */
  lemma KbTextMonotone(n: nat, m: nat)
    requires n <= m
    ensures ReadSize(FormatSizeKb(n)).Some? && ReadSize(FormatSizeKb(m)).Some?
    ensures ReadSize(FormatSizeKb(n)).value.0 <= ReadSize(FormatSizeKb(m)).value.0
  {
    KbTextReadsBack(n);
    KbTextReadsBack(m);
    DivMonotone(n, m, KiB);
  }

  /**
   * The unit is the largest one whose scale does not exceed the size:
   * bytes below 1024, and never a unit 1024 times too small.
   */
  lemma UnitThresholds(n: nat)
    ensures UnitFor(n) == B || Scale(UnitFor(n)) <= n
    ensures UnitFor(n) == GB || n < KiB * Scale(UnitFor(n))
  {
  }

  /** The unit never decreases as the size grows. */
  lemma UnitMonotone(n: nat, m: nat)
    requires n <= m
    ensures Rank(UnitFor(n)) <= Rank(UnitFor(m))
  {
  }

  /**
   * What the full text of `n` bytes says: it reads back with the unit
   * `UnitFor(n)` and a number `q` that, with `Places` decimals, lies within
   * half a unit of its last place of `n / Scale`, ties going to an even last
   * digit; below 1024 the number is the grouped byte count, above it the
   * number is ungrouped `.Nf` text (`FixedText`): no leading zero, and the
   * point `Places` characters from the right, with digits on both sides.
   */
  predicate ShowsSize(n: nat, t: string) {
    var u := UnitFor(n);
    && ReadSize(t).Some?
    && ReadSize(t).value.1 == u
    && var q := ReadSize(t).value.0;
    && 2 * Dist(n * Pow10(Places(u)), q * Scale(u)) <= Scale(u)
    && (2 * Dist(n * Pow10(Places(u)), q * Scale(u)) == Scale(u) ==> q % 2 == 0)
    && |t| > |Suffix(u)|
    && var num := t[..|t| - |Suffix(u)|];
    && (u == B ==> num == Group(Digits(n)) && WellGrouped(num))
    && (u != B ==> ',' !in num && FixedText(num, Places(u)))
  }

  /** `format_size_full(n)` shows `n` bytes in the sense of `ShowsSize`. */
  lemma FullTextReadsBack(n: nat)
    ensures ShowsSize(n, FormatSizeFull(n))
  {
    if n < KiB {
      FullTextBytes(n);
    } else if n < MiB {
      FullTextKb(n);
    } else if n < GiB {
      FullTextMb(n);
    } else {
      FullTextGb(n);
    }
  }

  lemma FullTextBytes(n: nat)
    requires n < KiB
    ensures ShowsSize(n, FormatSizeFull(n))
  {
    var t := FormatSizeFull(n);
    var g := Group(Digits(n));
    ReadGrouped(n);
    assert IsDigit(g[|g| - 1]) by {
      assert (|g| - (|g| - 1)) % 4 != 0;
    }
    ReadSizeOf(g, B, n);
    assert t[..|t| - 2] == g;
    assert Pow10(0) == 1;
  }

  lemma FullTextKb(n: nat)
    requires KiB <= n < MiB
    ensures ShowsSize(n, FormatSizeFull(n))
  {
    var q := RoundHalfEven(n, KiB);
    var t := FormatSizeFull(n);
    assert t == Fixed(q, 0) + " KB";
    FixedWithUnit(q, KB);
    assert Pow10(0) == 1;
  }

  lemma FullTextMb(n: nat)
    requires MiB <= n < GiB
    ensures ShowsSize(n, FormatSizeFull(n))
  {
    var q := RoundHalfEven(n * 10, MiB);
    var t := FormatSizeFull(n);
    assert t == Fixed(q, 1) + " MB";
    FixedWithUnit(q, MB);
    assert Pow10(1) == 10;
  }

  lemma FullTextGb(n: nat)
    requires GiB <= n
    ensures ShowsSize(n, FormatSizeFull(n))
  {
    var q := RoundHalfEven(n * 100, GiB);
    var t := FormatSizeFull(n);
    assert t == Fixed(q, 2) + " GB";
    FixedWithUnit(q, GB);
    assert Pow10(2) == 100;
  }

  /** A fixed-point number followed by a unit suffix reads back as the scaled number and the unit. */
  lemma FixedWithUnit(q: nat, u: Unit)
    ensures var num := Fixed(q, Places(u));
      && ReadSize(num + Suffix(u)) == Some((q, u))
      && ',' !in num
      && FixedText(num, Places(u))
  {
    var num := Fixed(q, Places(u));
    FixedShape(q, Places(u));
    assert IsDigit(num[|num| - 1]);
    ReadSizeOf(num, u, q);
  }
}
