/**
 * A result row of the file table and the comparison that `FileTreeWidget.__lt__`
 * performs, written as a free function of the sort column and two rows.
 */
module Rows {
  import opened Wrappers
  import opened PyText

  /**
   * One row: the four display texts (name, directory, size, modification
   * time) and the raw values stored beside them for sorting: the full path,
   * the size in bytes and the modification time in seconds.
   */
  datatype Row = Row(
    name: string,
    directory: string,
    sizeText: string,
    timeText: string,
    path: string,
    size: Option<nat>,
    mtime: Option<int>)

  /** `item.text(column)`; a column the table does not have shows no text. */
  function ColumnText(r: Row, column: int): string {
    if column == 0 then r.name
    else if column == 1 then r.directory
    else if column == 2 then r.sizeText
    else if column == 3 then r.timeText
    else ""
  }

  /** `data or 0`: a missing value counts as zero. */
  function OrZero(v: Option<int>): int {
    match v
    case None => 0
    case Some(x) => x
  }

  /** The comparator: numbers for the size and time columns, display text otherwise. */
  predicate Less(column: int, a: Row, b: Row) {
    if column == 2 then OrZero(a.size) < OrZero(b.size)
    else if column == 3 then OrZero(a.mtime) < OrZero(b.mtime)
    else LexLess(ColumnText(a, column), ColumnText(b, column))
  }

  /**
   * The size and time columns are ordered by the stored numbers alone: rows
   * that keep their numbers keep their order whatever their display texts.
   */
  lemma NumericColumnsIgnoreText(column: int, a: Row, b: Row, a': Row, b': Row)
    requires column == 2 || column == 3
    requires a.size == a'.size && b.size == b'.size && a.mtime == a'.mtime && b.mtime == b'.mtime
    ensures Less(column, a, b) <==> Less(column, a', b')
  {
  }

  /**
   * Sizes 500, 2000 and 100 all display as "1 KB", yet sort as 100, 500,
   * 2000; names compare case-sensitively by code point, "B.txt" before "a.txt".
   */
  lemma LessExamples(r: Row)
    ensures Less(2, r.(size := Some(100)), r.(size := Some(500)))
    ensures Less(2, r.(size := Some(500)), r.(size := Some(2000)))
    ensures Less(0, r.(name := "B.txt"), r.(name := "a.txt"))
    ensures !Less(0, r.(name := "a.txt"), r.(name := "B.txt"))
  {
  }

  lemma LessIrreflexive(column: int, a: Row)
    ensures !Less(column, a, a)
  {
    LexIrreflexive(ColumnText(a, column));
  }

  lemma LessTransitive(column: int, a: Row, b: Row, c: Row)
    requires Less(column, a, b) && Less(column, b, c)
    ensures Less(column, a, c)
  {
    if column != 2 && column != 3 {
      LexTransitive(ColumnText(a, column), ColumnText(b, column), ColumnText(c, column));
    }
  }

  /** Two rows neither of which is less than the other carry the same sort key. */
  predicate SameKey(column: int, a: Row, b: Row) {
    if column == 2 then OrZero(a.size) == OrZero(b.size)
    else if column == 3 then OrZero(a.mtime) == OrZero(b.mtime)
    else ColumnText(a, column) == ColumnText(b, column)
  }

  lemma IncomparableIsSameKey(column: int, a: Row, b: Row)
    ensures !Less(column, a, b) && !Less(column, b, a) <==> SameKey(column, a, b)
  {
    if column != 2 && column != 3 {
      var x, y := ColumnText(a, column), ColumnText(b, column);
      if x != y {
        LexTotal(x, y);
      } else {
        LexIrreflexive(x);
      }
    }
  }

  /**
   * A strict weak order: irreflexive, transitive, and rows that are
   * incomparable to a common row are incomparable to each other.
   */
  lemma LessIsStrictWeakOrder(column: int, a: Row, b: Row, c: Row)
    ensures !Less(column, a, a)
    ensures Less(column, a, b) && Less(column, b, c) ==> Less(column, a, c)
    ensures Less(column, a, b) ==> !Less(column, b, a)
    ensures (!Less(column, a, b) && !Less(column, b, a) && !Less(column, b, c) && !Less(column, c, b))
      ==> !Less(column, a, c) && !Less(column, c, a)
  {
    LessIrreflexive(column, a);
    if Less(column, a, b) && Less(column, b, c) {
      LessTransitive(column, a, b, c);
    }
    if Less(column, a, b) && Less(column, b, a) {
      LessTransitive(column, a, b, a);
    }
    IncomparableIsSameKey(column, a, b);
    IncomparableIsSameKey(column, b, c);
    IncomparableIsSameKey(column, a, c);
  }

  /**
   * The order Qt's own item comparison gives a column: the display texts,
   * whatever the column, compared here by code point (Qt compares UTF-16
   * code units, which agrees within the Basic Multilingual Plane). This is what the table actually sorts by, since
   * `__lt__` is defined on the tree widget rather than on its items.
   */
  predicate TextLess(column: int, a: Row, b: Row) {
    LexLess(ColumnText(a, column), ColumnText(b, column))
  }
}
