/** The order of texts by code point, as SQLite's binary collation and Python compare them, and what
    it means for numbers and moments written in a fixed width. */
module TextOrder {
  predicate Before(a: string, b: string) {
    b != "" && (a == "" || a[0] < b[0] || (a[0] == b[0] && Before(a[1..], b[1..])))
  }

  /** Not after. */
  predicate Lte(a: string, b: string) {
    !Before(b, a)
  }

  lemma {:induction false} BeforeIsStrict(a: string, b: string)
    ensures !(Before(a, b) && Before(b, a))
    ensures Before(a, b) || Before(b, a) <==> a != b
  {
    if a != "" && b != "" && a[0] == b[0] {
      BeforeIsStrict(a[1..], b[1..]);
      assert a == [a[0]] + a[1..] && b == [b[0]] + b[1..];
    }
  }

  lemma {:induction false} LteTransitive(a: string, b: string, c: string)
    requires Lte(a, b) && Lte(b, c)
    ensures Lte(a, c)
  {
    if a != "" && b != "" && c != "" && a[0] == b[0] == c[0] {
      LteTransitive(a[1..], b[1..], c[1..]);
    }
  }

  /** Texts of one length compare part by part. */
  lemma {:induction false} BeforeByParts(a: string, b: string, c: string, d: string)
    requires |a| == |b|
    ensures Before(a + c, b + d) <==> Before(a, b) || (a == b && Before(c, d))
  {
    if a == "" {
      assert a + c == c && b + d == d;
    } else {
      assert (a + c)[0] == a[0] && (b + d)[0] == b[0];
      assert (a + c)[1..] == a[1..] + c && (b + d)[1..] == b[1..] + d;
      BeforeByParts(a[1..], b[1..], c, d);
      assert a == [a[0]] + a[1..] && b == [b[0]] + b[1..];
    }
  }

  // -------------------------------------------------------------------------
  // Numbers of a fixed width
  // -------------------------------------------------------------------------

  predicate IsDigits(s: string) {
    forall i :: 0 <= i < |s| ==> '0' <= s[i] <= '9'
  }

  /** The number a text of digits denotes. */
  function Value(s: string): nat
    requires IsDigits(s)
  {
    if s == "" then 0 else Value(s[..|s| - 1]) * 10 + (s[|s| - 1] as int - '0' as int)
  }

  function Pow10(n: nat): nat {
    if n == 0 then 1 else 10 * Pow10(n - 1)
  }

  /** The last `width` digits of a number. */
  function Decimal(n: nat, width: nat): string {
    if width == 0 then "" else Decimal(n / 10, width - 1) + [(n % 10) as char + '0']
  }

  lemma {:induction false} DecimalIsDigits(n: nat, width: nat)
    ensures |Decimal(n, width)| == width && IsDigits(Decimal(n, width))
  {
    if width > 0 {
      DecimalIsDigits(n / 10, width - 1);
    }
  }

  lemma {:induction false} ValueOfDecimal(n: nat, width: nat)
    requires n < Pow10(width)
    ensures IsDigits(Decimal(n, width)) && Value(Decimal(n, width)) == n
  {
    DecimalIsDigits(n, width);
    if width > 0 {
      ValueOfDecimal(n / 10, width - 1);
      assert Decimal(n, width)[..width - 1] == Decimal(n / 10, width - 1) by {
        DecimalIsDigits(n / 10, width - 1);
      }
    }
  }

  lemma {:induction false} DecimalOfValue(s: string)
    requires IsDigits(s)
    ensures Decimal(Value(s), |s|) == s && Value(s) < Pow10(|s|)
  {
    if s != "" {
      DecimalOfValue(s[..|s| - 1]);
      var digit := s[|s| - 1] as int - '0' as int;
      assert Value(s) / 10 == Value(s[..|s| - 1]) && Value(s) % 10 == digit;
      assert s == s[..|s| - 1] + [s[|s| - 1]];
    }
  }

  /** For texts of as many digits, the order of the texts is the order of the numbers. */
  lemma {:induction false} DigitsInOrder(a: string, b: string)
    requires |a| == |b| && IsDigits(a) && IsDigits(b)
    ensures Before(a, b) <==> Value(a) < Value(b)
    ensures a == b <==> Value(a) == Value(b)
  {
    if a != "" {
      var n := |a| - 1;
      DigitsInOrder(a[..n], b[..n]);
      BeforeByParts(a[..n], b[..n], a[n..], b[n..]);
      assert a == a[..n] + a[n..] && b == b[..n] + b[n..];
      assert a[n..] == [a[n]] && b[n..] == [b[n]];
      assert Before(a[n..], b[n..]) <==> a[n] < b[n];
    }
  }

  // -------------------------------------------------------------------------
  // Moments
  // -------------------------------------------------------------------------

  /** A point in time as `%Y-%m-%d %H:%M:%S.%f` writes it. */
  datatype Moment = Moment(year: nat, month: nat, day: nat, hour: nat, minute: nat, second: nat, micro: nat)

  predicate IsMoment(m: Moment) {
    && m.year < 10_000 && 1 <= m.month <= 12 && 1 <= m.day <= 31
    && m.hour < 24 && m.minute < 60 && m.second < 60 && m.micro < 1_000_000
  }

  /** One moment comes before another: the first unit in which they differ decides. */
  predicate Earlier(a: Moment, b: Moment) {
    || a.year < b.year
    || (a.year == b.year && a.month < b.month)
    || (a.year == b.year && a.month == b.month && a.day < b.day)
    || (a.year == b.year && a.month == b.month && a.day == b.day && Seconds(a) < Seconds(b))
    || (a.year == b.year && a.month == b.month && a.day == b.day && Seconds(a) == Seconds(b) && a.micro < b.micro)
  }

  /** Seconds since midnight. */
  function Seconds(m: Moment): nat {
    (m.hour * 60 + m.minute) * 60 + m.second
  }

  function Written(m: Moment): string {
    Decimal(m.year, 4) + "-" + Decimal(m.month, 2) + "-" + Decimal(m.day, 2) + " " +
    Decimal(m.hour, 2) + ":" + Decimal(m.minute, 2) + ":" + Decimal(m.second, 2) + "." + Decimal(m.micro, 6)
  }

  /** A number and a mark in front of the rest: the number decides first. */
  lemma FieldDecides(n: nat, m: nat, width: nat, mark: string, c: string, d: string)
    requires n < Pow10(width) && m < Pow10(width)
    ensures Before(Decimal(n, width) + mark + c, Decimal(m, width) + mark + d) <==> n < m || (n == m && Before(c, d))
  {
    hide Decimal, Value, Before, IsDigits, Pow10;
    var x, y := Decimal(n, width), Decimal(m, width);
    DecimalsInOrder(n, m, width);
    BeforeByParts(x + mark, y + mark, c, d);
    BeforeByParts(x, y, mark, mark);
    BeforeIsStrict(mark, mark);
    if x + mark == y + mark {
      assert (x + mark)[..width] == x && (y + mark)[..width] == y;
    }
  }

  lemma DecimalsInOrder(n: nat, m: nat, width: nat)
    requires n < Pow10(width) && m < Pow10(width)
    ensures |Decimal(n, width)| == |Decimal(m, width)| == width
    ensures Before(Decimal(n, width), Decimal(m, width)) <==> n < m
    ensures Decimal(n, width) == Decimal(m, width) <==> n == m
  {
    hide Decimal, Value, Before, Pow10;
    ValueOfDecimal(n, width);
    ValueOfDecimal(m, width);
    DecimalIsDigits(n, width);
    DecimalIsDigits(m, width);
    DigitsInOrder(Decimal(n, width), Decimal(m, width));
  }

  function FromDay(m: Moment): string {
    Decimal(m.day, 2) + " " + FromHour(m)
  }

  function FromHour(m: Moment): string {
    Decimal(m.hour, 2) + ":" + (Decimal(m.minute, 2) + ":" + (Decimal(m.second, 2) + "." + (Decimal(m.micro, 6) + "")))
  }

  lemma FromHourInOrder(a: Moment, b: Moment)
    requires IsMoment(a) && IsMoment(b)
    ensures Before(FromHour(a), FromHour(b)) <==>
            Seconds(a) < Seconds(b) || (Seconds(a) == Seconds(b) && a.micro < b.micro)
    ensures FromHour(a) == FromHour(b) ==> Seconds(a) == Seconds(b)
  {
    hide Before, Decimal;
    assert Pow10(2) == 100 && Pow10(6) == 1_000_000 by {
      assert Pow10(3) == 1000;
    }
    var ma, mb := Decimal(a.micro, 6) + "", Decimal(b.micro, 6) + "";
    var sa, sb := Decimal(a.second, 2) + "." + ma, Decimal(b.second, 2) + "." + mb;
    var na, nb := Decimal(a.minute, 2) + ":" + sa, Decimal(b.minute, 2) + ":" + sb;
    BeforeIsStrict("", "");
    FieldDecides(a.micro, b.micro, 6, "", "", "");
    assert ma + "" == ma && mb + "" == mb;
    FieldDecides(a.second, b.second, 2, ".", ma, mb);
    FieldDecides(a.minute, b.minute, 2, ":", sa, sb);
    FieldDecides(a.hour, b.hour, 2, ":", na, nb);
    BeforeIsStrict(FromHour(a), FromHour(b));
    FieldDecides(b.micro, a.micro, 6, "", "", "");
    FieldDecides(b.second, a.second, 2, ".", mb, ma);
    FieldDecides(b.minute, a.minute, 2, ":", sb, sa);
    FieldDecides(b.hour, a.hour, 2, ":", nb, na);
  }

  /** For timestamps as the program writes them, the order of the texts is the order in time. */
  lemma MomentsInOrder(a: Moment, b: Moment)
    requires IsMoment(a) && IsMoment(b)
    ensures Before(Written(a), Written(b)) <==> Earlier(a, b)
  {
    hide Before, Decimal, FromHour;
    assert Pow10(2) == 100 && Pow10(4) == 10_000 by {
      assert Pow10(3) == 1000;
    }
    FromHourInOrder(a, b);
    var da, db := FromDay(a), FromDay(b);
    var ha, hb := Decimal(a.month, 2) + "-" + da, Decimal(b.month, 2) + "-" + db;
    FieldDecides(a.day, b.day, 2, " ", FromHour(a), FromHour(b));
    FieldDecides(a.month, b.month, 2, "-", da, db);
    FieldDecides(a.year, b.year, 4, "-", ha, hb);
    WrittenInParts(a);
    WrittenInParts(b);
  }

  lemma WrittenInParts(m: Moment)
    ensures Written(m) == Decimal(m.year, 4) + "-" + (Decimal(m.month, 2) + "-" + FromDay(m))
  {
    hide Decimal;
  }
}
