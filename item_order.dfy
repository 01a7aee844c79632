/**
 * MyTreeWidgetItem::operator< (mainwindow.cpp): how the file list sorts. Sizes
 * compare as numbers, versions put packaged files before external ones, and
 * every other column falls back to QTreeWidgetItem's own comparison. Each
 * comparison sees the two texts of the sort column. The order QDate gives two
 * dates parsed from "yyyy/MMM/dd" and the locale-aware text order of the
 * fallback are parameters.
 */
module ItemOrder {
  import opened CTypes
  import opened QtString
  import opened VersionColumn

  const COLUMN_NAME: int := 0
  const COLUMN_HASH: int := 1
  const COLUMN_SIZE: int := 2
  const COLUMN_TYPE: int := 3
  const COLUMN_VERSION: int := 4

  // ---------------------------------------------------------------------------
  // QString::toLongLong in base 10

  predicate IsDigit(c: char) {
    '0' <= c <= '9'
  }

  predicate AllDigits(s: string) {
    forall i | 0 <= i < |s| :: IsDigit(s[i])
  }

  /** The value of a string of decimal digits, most significant first. */
  function DigitsValue(s: string): nat
    requires AllDigits(s)
  {
    if s == [] then 0 else 10 * DigitsValue(s[..|s| - 1]) + (s[|s| - 1] as int - '0' as int)
  }

  /**
   * toLongLong: an optional sign and at least one digit, read as a 64-bit
   * integer; 0 for anything else and for a value out of range.
   */
  function ToLongLong(s: string): (r: int)
    ensures LLONG_MIN <= r <= LLONG_MAX
  {
    var signed := s != [] && (s[0] == '-' || s[0] == '+');
    var digits := if signed then s[1..] else s;
    if digits == [] || !AllDigits(digits) then 0
    else
      var magnitude: int := DigitsValue(digits);
      var v := if signed && s[0] == '-' then -magnitude else magnitude;
      if LLONG_MIN <= v <= LLONG_MAX then v else 0
  }

  /** The decimal text QString::arg writes for a count that is not negative. */
  function Decimal(n: nat): (s: string)
    ensures s != [] && AllDigits(s)
  {
    var d := ['0' + (n % 10) as char];
    if n < 10 then d else Decimal(n / 10) + d
  }

  lemma {:induction false} DecimalValue(n: nat)
    ensures DigitsValue(Decimal(n)) == n
  {
    var s := Decimal(n);
    if n >= 10 {
      DecimalValue(n / 10);
      assert s[..|s| - 1] == Decimal(n / 10);
    }
  }

  /** The size column text RdbEntryToGui writes: QString("%1 bytes").arg(file_size). */
  function SizeText(size: nat): string {
    Decimal(size) + " bytes"
  }

  /** The number the size column sorts by: the text up to its first space, as toLongLong reads it. */
  function SizeKey(text: string): (r: int)
    ensures LLONG_MIN <= r <= LLONG_MAX
  {
    ToLongLong(Left(text, IndexOf(text, ' ')))
  }

  /** The size column text reads back as the size it was written from. */
  lemma SizeKeyOfSizeText(size: nat)
    requires size <= LLONG_MAX
    ensures SizeKey(SizeText(size)) == size
  {
    var d := Decimal(size);
    var t := SizeText(size);
    assert ' ' !in d by {
      assert forall i | 0 <= i < |d| :: IsDigit(d[i]);
    }
    assert t[..|d|] == d;
    assert IndexOf(t, ' ') == |d| by {
      assert t[|d|] == ' ';
      assert ' ' !in t[..|d|];
    }
    DecimalValue(size);
  }

  // ---------------------------------------------------------------------------
  // The comparison

  /** The date part of an external version text: what follows "External (", without the last character. */
  function ExternalStamp(text: string): string {
    Chop(Mid(text, 10))
  }

  /** Two external items, as written: a left "NE" is less than anything, another "NE" included. */
  function ExternalLessAsWritten(stamp1: string, stamp2: string, dateLess: (string, string) -> bool): bool {
    if stamp1 == "NE" then true
    else if stamp2 == "NE" then false
    else dateLess(stamp1, stamp2)
  }

  /** Two external items, corrected: "NE" sorts first, and two "NE" are equivalent. */
  function ExternalLess(stamp1: string, stamp2: string, dateLess: (string, string) -> bool): bool {
    if stamp1 == "NE" then stamp2 != "NE"
    else if stamp2 == "NE" then false
    else dateLess(stamp1, stamp2)
  }

  /** The version column, with the comparison of two external items given. */
  function VersionLess(a: string, b: string, externalLess: (string, string) -> bool, textLess: (string, string) -> bool): bool {
    var external1 := StartsWith(a, "External (");
    var external2 := StartsWith(b, "External (");
    if external1 && !external2 then false
    else if !external1 && external2 then true
    else if external1 && external2 then externalLess(ExternalStamp(a), ExternalStamp(b))
    else
      var pos1 := IndexOfStr(a, " / ");
      var pos2 := IndexOfStr(b, " / ");
      if pos1 >= 0 && pos2 >= 0 then LexLess(a[pos1..], b[pos2..])
      else textLess(a, b)
  }

  /** operator< exactly as written. */
  function ItemLessAsWritten(column: int, a: string, b: string,
                             dateLess: (string, string) -> bool, textLess: (string, string) -> bool): bool {
    if column == COLUMN_SIZE then SizeKey(a) < SizeKey(b)
    else if column == COLUMN_VERSION then
      VersionLess(a, b, (s1, s2) => ExternalLessAsWritten(s1, s2, dateLess), textLess)
    else textLess(a, b)
  }

  /** operator< with two "NE" items equivalent; the rest of the comparison is unchanged. */
  function ItemLess(column: int, a: string, b: string,
                    dateLess: (string, string) -> bool, textLess: (string, string) -> bool): bool {
    if column == COLUMN_SIZE then SizeKey(a) < SizeKey(b)
    else if column == COLUMN_VERSION then
      VersionLess(a, b, (s1, s2) => ExternalLess(s1, s2, dateLess), textLess)
    else textLess(a, b)
  }

  // ---------------------------------------------------------------------------
  // Properties

  /** Sizes sort by value: a 9-byte file comes before a 10-byte one although "10" < "9" as text. */
  lemma SizeOrderIsNumeric(size1: nat, size2: nat, dateLess: (string, string) -> bool, textLess: (string, string) -> bool)
    requires size1 <= LLONG_MAX && size2 <= LLONG_MAX
    ensures ItemLess(COLUMN_SIZE, SizeText(size1), SizeText(size2), dateLess, textLess) <==> size1 < size2
  {
    SizeKeyOfSizeText(size1);
    SizeKeyOfSizeText(size2);
  }

  lemma NineBeforeTen(dateLess: (string, string) -> bool, textLess: (string, string) -> bool)
    ensures ItemLess(COLUMN_SIZE, SizeText(9), SizeText(10), dateLess, textLess)
    ensures LexLess(SizeText(10), SizeText(9))
  {
    SizeOrderIsNumeric(9, 10, dateLess, textLess);
    assert Decimal(10) == "10";
    assert SizeText(10)[0] == '1' && SizeText(9)[0] == '9';
  }

  /** Every item with a package sorts before every external item. */
  lemma ExternalLast(a: string, b: string, dateLess: (string, string) -> bool, textLess: (string, string) -> bool)
    requires !StartsWith(a, "External (") && StartsWith(b, "External (")
    ensures ItemLess(COLUMN_VERSION, a, b, dateLess, textLess)
    ensures !ItemLess(COLUMN_VERSION, b, a, dateLess, textLess)
  {
  }

  /** As written, an external item without a file is less than itself. */
  lemma MissingLessThanItselfAsWritten(dateLess: (string, string) -> bool, textLess: (string, string) -> bool)
    ensures ItemLessAsWritten(COLUMN_VERSION, "External (NE)", "External (NE)", dateLess, textLess)
  {
    assert StartsWith("External (NE)", "External (");
    assert ExternalStamp("External (NE)") == "NE";
  }

  /**
   * The correction changes operator< only for two external items that are
   * both missing: everywhere else the properties below, stated on the
   * corrected comparison, hold for operator< as written.
   */
  lemma AgreesAsWritten(column: int, a: string, b: string,
                        dateLess: (string, string) -> bool, textLess: (string, string) -> bool)
    requires !(ExternalStamp(a) == "NE" && ExternalStamp(b) == "NE")
    ensures ItemLess(column, a, b, dateLess, textLess) == ItemLessAsWritten(column, a, b, dateLess, textLess)
  {
  }

  /** The corrected comparison is irreflexive whenever the date and text orders are. */
  lemma ItemLessIrreflexive(column: int, a: string, dateLess: (string, string) -> bool, textLess: (string, string) -> bool)
    requires forall s :: !dateLess(s, s)
    requires forall s :: !textLess(s, s)
    ensures !ItemLess(column, a, a, dateLess, textLess)
  {
    if column == COLUMN_VERSION && !StartsWith(a, "External (") {
      var pos := IndexOfStr(a, " / ");
      if pos >= 0 {
        LexLessIrreflexive(a[pos..]);
      }
    }
  }

  /** It is also asymmetric whenever the date and text orders are. */
  lemma ItemLessAsymmetric(column: int, a: string, b: string,
                           dateLess: (string, string) -> bool, textLess: (string, string) -> bool)
    requires forall s, t :: !(dateLess(s, t) && dateLess(t, s))
    requires forall s, t :: !(textLess(s, t) && textLess(t, s))
    ensures !(ItemLess(column, a, b, dateLess, textLess) && ItemLess(column, b, a, dateLess, textLess))
  {
    if column == COLUMN_VERSION && !StartsWith(a, "External (") && !StartsWith(b, "External (") {
      var pos1 := IndexOfStr(a, " / ");
      var pos2 := IndexOfStr(b, " / ");
      if pos1 >= 0 && pos2 >= 0 {
        LexLessAsymmetric(a[pos1..], b[pos2..]);
      }
    }
  }

  // ---------------------------------------------------------------------------
  // The comparison on the texts RdbEntryToGui writes

  /** Two texts "<package> / <release>" compare by their releases. */
  lemma ReleaseTextsCompare(p1: string, r1: string, p2: string, r2: string,
                            dateLess: (string, string) -> bool, textLess: (string, string) -> bool)
    requires PlainName(p1) && PlainName(p2)
    ensures ItemLess(COLUMN_VERSION, p1 + " / " + r1, p2 + " / " + r2, dateLess, textLess) <==> LexLess(r1, r2)
  {
    var t1, t2 := p1 + " / " + r1, p2 + " / " + r2;
    var externalLess := (s1, s2) => ExternalLess(s1, s2, dateLess);
    assert ItemLess(COLUMN_VERSION, t1, t2, dateLess, textLess) == VersionLess(t1, t2, externalLess, textLess);
    assert VersionLess(t1, t2, externalLess, textLess) == LexLess(t1[|p1|..], t2[|p2|..]) by {
      assert !StartsWith(t1, "External (") by {
        assert t1[0] == 'b';
      }
      assert !StartsWith(t2, "External (") by {
        assert t2[0] == 'b';
      }
      SeparatorAfterPackage(p1, r1);
      SeparatorAfterPackage(p2, r2);
    }
    assert LexLess(t1[|p1|..], t2[|p2|..]) == LexLess(r1, r2) by {
      assert t1[|p1|..] == " / " + r1;
      assert t2[|p2|..] == " / " + r2;
      LexLessAfterCommonPrefix(" / ", r1, r2);
    }
  }

  /**
   * Two packaged files sort by their release names, as text, for any table
   * whose package names are plain, pkg_to_version among them.
   */
  lemma PackagesSortByRelease(bin1: string, bin2: string, table: map<string, string>, ext1: ExternalFile, ext2: ExternalFile,
                              dateLess: (string, string) -> bool, textLess: (string, string) -> bool)
    requires forall pkg | pkg in table :: PlainName(pkg)
    requires Mid(bin1, 1) in table && Mid(bin2, 1) in table
    ensures ItemLess(COLUMN_VERSION, VersionText(bin1, table, ext1), VersionText(bin2, table, ext2), dateLess, textLess)
        <==> LexLess(table[Mid(bin1, 1)], table[Mid(bin2, 1)])
  {
    var p1, p2 := Mid(bin1, 1), Mid(bin2, 1);
    PackagedText(bin1, table, ext1);
    PackagedText(bin2, table, ext2);
    ReleaseTextsCompare(p1, table[p1], p2, table[p2], dateLess, textLess);
  }

  /** Two external files sort by date, and one that is missing sorts first, for any table without an empty package name. */
  lemma ExternalsSortByDate(bin1: string, bin2: string, table: map<string, string>, ext1: ExternalFile, ext2: ExternalFile,
                            dateLess: (string, string) -> bool, textLess: (string, string) -> bool)
    requires Mid(bin1, 1) == [] && Mid(bin2, 1) == [] && [] !in table
    requires ext1.Modified? ==> ext1.date != "NE"
    requires ext2.Modified? ==> ext2.date != "NE"
    ensures ItemLess(COLUMN_VERSION, VersionText(bin1, table, ext1), VersionText(bin2, table, ext2), dateLess, textLess)
        <==> match (ext1, ext2)
               case (Modified(d1), Modified(d2)) => dateLess(d1, d2)
               case (Missing, Modified(_)) => true
               case (_, Missing) => false
  {
    ExternalText(bin1, table, ext1);
    ExternalText(bin2, table, ext2);
  }

  /** The same two external files under operator< as written: a missing file on the left is less than anything. */
  lemma ExternalsSortByDateAsWritten(bin1: string, bin2: string, table: map<string, string>, ext1: ExternalFile, ext2: ExternalFile,
                                     dateLess: (string, string) -> bool, textLess: (string, string) -> bool)
    requires Mid(bin1, 1) == [] && Mid(bin2, 1) == [] && [] !in table
    requires ext1.Modified? ==> ext1.date != "NE"
    requires ext2.Modified? ==> ext2.date != "NE"
    ensures ItemLessAsWritten(COLUMN_VERSION, VersionText(bin1, table, ext1), VersionText(bin2, table, ext2), dateLess, textLess)
        <==> match (ext1, ext2)
               case (Modified(d1), Modified(d2)) => dateLess(d1, d2)
               case (Missing, _) => true
               case (Modified(_), Missing) => false
  {
    ExternalText(bin1, table, ext1);
    ExternalText(bin2, table, ext2);
  }
}
