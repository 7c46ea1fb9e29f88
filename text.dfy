/** String comparison and the month bounds the statistics queries use. JavaScript compares strings
    with `<`, `<=` and `>=` lexicographically by character; Dafny's `<` on sequences means
    "proper prefix", so the order is defined here. */
module Text {

  /** `a <= b` on JavaScript strings: lexicographic order, a prefix coming first. */
  predicate LexLe(a: string, b: string): (r: bool)
    ensures a <= b ==> r
    ensures b < a ==> !r
    decreases |a|
  {
    if a == [] then true
    else if b == [] then false
    else if a[0] < b[0] then true
    else if a[0] > b[0] then false
    else LexLe(a[1..], b[1..])
  }

  lemma {:induction false} LexLeReflexive(a: string)
    ensures LexLe(a, a)
    decreases |a|
  {
    if a != [] {
      LexLeReflexive(a[1..]);
    }
  }

  lemma {:induction false} LexLeTotal(a: string, b: string)
    ensures LexLe(a, b) || LexLe(b, a)
    decreases |a|
  {
    if a != [] && b != [] && a[0] == b[0] {
      LexLeTotal(a[1..], b[1..]);
    }
  }

  lemma {:induction false} LexLeAntisymmetric(a: string, b: string)
    requires LexLe(a, b) && LexLe(b, a)
    ensures a == b
    decreases |a|
  {
    if a != [] {
      LexLeAntisymmetric(a[1..], b[1..]);
      assert a == [a[0]] + a[1..] && b == [b[0]] + b[1..];
    }
  }

  lemma {:induction false} LexLeTransitive(a: string, b: string, c: string)
    requires LexLe(a, b) && LexLe(b, c)
    ensures LexLe(a, c)
    decreases |a|
  {
    if a != [] && b != [] && c != [] && a[0] == b[0] && b[0] == c[0] {
      LexLeTransitive(a[1..], b[1..], c[1..]);
    }
  }

  /** `lo <= d && d <= hi` on JavaScript strings. */
  predicate InRange(d: string, lo: string, hi: string) {
    LexLe(lo, d) && LexLe(d, hi)
  }

  /** A string lies between `p + a` and `p + b` exactly when it starts with `p`
      and what follows `p` lies between `a` and `b`. */
  lemma {:induction false} BetweenCommonPrefix(p: string, a: string, b: string, d: string)
    ensures InRange(d, p + a, p + b)
        <==> |p| <= |d| && d[..|p|] == p && InRange(d[|p|..], a, b)
    decreases |p|
  {
    if p == [] {
      assert p + a == a && p + b == b && d[|p|..] == d;
    } else if d != [] && p[0] == d[0] {
      assert (p + a)[1..] == p[1..] + a && (p + b)[1..] == p[1..] + b;
      BetweenCommonPrefix(p[1..], a, b, d[1..]);
      if |p| <= |d| {
        assert d[1..][..|p| - 1] == d[1..|p|] && d[1..][|p| - 1..] == d[|p|..];
        assert d[..|p|] == [d[0]] + d[1..|p|] && p == [p[0]] + p[1..];
      }
    }
  }

  /** The decimal digits of a natural number, as `Number.prototype.toString` writes them. */
  function NatToString(n: nat): string
    decreases n
  {
    var digit := ['0' + (n % 10) as char];
    if n < 10 then digit else NatToString(n / 10) + digit
  }

  /** The decimal text of a number is a non-empty string of digits. */
  lemma {:induction false} NatToStringDigits(n: nat)
    ensures |NatToString(n)| >= 1
    ensures forall i :: 0 <= i < |NatToString(n)| ==> '0' <= NatToString(n)[i] <= '9'
    decreases n
  {
    if n >= 10 {
      NatToStringDigits(n / 10);
    }
  }

  /** `Number.prototype.toString` on an integer: a minus sign before negative numbers. */
  function IntToString(n: int): string {
    if n < 0 then "-" + NatToString(-n) else NatToString(n)
  }

  lemma {:induction false} NatToStringLength(n: nat, k: nat)
    requires Power10(k) <= n < Power10(k + 1)
    ensures |NatToString(n)| == k + 1
    decreases k
  {
    if k > 0 {
      NatToStringLength(n / 10, k - 1);
    }
  }

  function Power10(k: nat): nat {
    if k == 0 then 1 else 10 * Power10(k - 1)
  }

  /** `padStart(2, '0')`: strings shorter than two characters get leading zeros. */
  function PadStart2(s: string): string {
    if |s| == 0 then "00" else if |s| == 1 then "0" + s else s
  }

  /** Padding leaves two or more characters alone and fills shorter text with leading zeros up to two. */
  lemma PadStart2Pads(s: string)
    ensures |s| >= 2 ==> PadStart2(s) == s
    ensures |s| < 2 ==> |PadStart2(s)| == 2 && PadStart2(s)[2 - |s|..] == s
    ensures |s| < 2 ==> forall i :: 0 <= i < 2 - |s| ==> PadStart2(s)[i] == '0'
  {
  }

  /** `${year}-${MM}-`, the text shared by both ends of a month's date range. */
  function MonthPrefix(year: int, month: int): string {
    IntToString(year) + "-" + PadStart2(IntToString(month)) + "-"
  }

  predicate IsDigit(c: char) {
    '0' <= c <= '9'
  }

  /** A `YYYY-MM-DD` string: ten characters, dashes at positions 4 and 7, digits elsewhere. */
  predicate DateShaped(d: string) {
    && |d| == 10 && d[4] == '-' && d[7] == '-'
    && forall i :: 0 <= i < 10 && i != 4 && i != 7 ==> IsDigit(d[i])
  }

  /** The first date of the month range: `YYYY-MM-01`, a date-shaped string for a four-digit year and a
      month 1..12. */
  function MonthStart(year: int, month: int): (r: string)
    ensures 1000 <= year <= 9999 && 1 <= month <= 12 ==> DateShaped(r) && r[8..] == "01"
  {
    if 1000 <= year <= 9999 && 1 <= month <= 12 then MonthPrefixShape(year, month); MonthPrefix(year, month) + "01"
    else MonthPrefix(year, month) + "01"
  }

  /** The last date of the month range: `YYYY-MM-31` for every month, date-shaped for a four-digit year
      and a month 1..12. */
  function MonthEnd(year: int, month: int): (r: string)
    ensures 1000 <= year <= 9999 && 1 <= month <= 12 ==> DateShaped(r) && r[8..] == "31"
  {
    if 1000 <= year <= 9999 && 1 <= month <= 12 then MonthPrefixShape(year, month); MonthPrefix(year, month) + "31"
    else MonthPrefix(year, month) + "31"
  }

  /** For a four-digit year and a month 1..12 the prefix is the eight characters `YYYY-MM-`: four digits,
      a dash, two digits, a dash. */
  lemma MonthPrefixShape(year: int, month: int)
    requires 1000 <= year <= 9999 && 1 <= month <= 12
    ensures |MonthPrefix(year, month)| == 8
    ensures MonthPrefix(year, month)[4] == '-' && MonthPrefix(year, month)[7] == '-'
    ensures forall i :: 0 <= i < 8 && i != 4 && i != 7 ==> IsDigit(MonthPrefix(year, month)[i])
  {
    var y, m := IntToString(year), PadStart2(IntToString(month));
    NatToStringLength(year, 3);
    NatToStringDigits(year);
    NatToStringDigits(month);
    if month < 10 {
      NatToStringLength(month, 0);
    } else {
      NatToStringLength(month, 1);
    }
    assert |m| == 2 && IsDigit(m[0]) && IsDigit(m[1]);
    assert MonthPrefix(year, month) == y + "-" + m + "-";
  }

  /** The fixed day-31 bound selects exactly the dates of that month: a date is in the range
      iff it starts with `YYYY-MM-` and its day field lies between "01" and "31". */
  lemma MonthRangeSelectsMonth(d: string, year: int, month: int)
    requires 1000 <= year <= 9999 && 1 <= month <= 12
    ensures InRange(d, MonthStart(year, month), MonthEnd(year, month))
        <==> |d| >= 8 && d[..8] == MonthPrefix(year, month) && InRange(d[8..], "01", "31")
  {
    MonthPrefixShape(year, month);
    BetweenCommonPrefix(MonthPrefix(year, month), "01", "31", d);
  }
}
