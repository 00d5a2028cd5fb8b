/** The order of stored creation times (store/store_response_chunks.go): times
    are kept as RFC 3339 text with nanoseconds, trailing zeros dropped, and rows
    are ordered by that text. */
module TimeText {
  import opened Ordering

  const BILLION: nat := 1_000_000_000

  /** A UTC time: its text to the second, all of one width, and the nanoseconds. */
  datatype Stamp = Stamp(seconds: string, nanos: nat)

  ghost predicate StampOk(s: Stamp) {
    |s.seconds| == 19 && s.nanos < BILLION
  }

  /** The order in time. */
  predicate Earlier(s: Stamp, t: Stamp) {
    Less(s.seconds, t.seconds) || (s.seconds == t.seconds && s.nanos < t.nanos)
  }

  function Digit(n: nat): char
    requires n < 10
  {
    '0' + n as char
  }

  /** The last k decimal digits of n. */
  function Digits(n: nat, k: nat): (r: string)
    ensures |r| == k
    ensures forall i :: 0 <= i < k ==> '0' <= r[i] <= '9'
  {
    if k == 0 then "" else Digits(n / 10, k - 1) + [Digit(n % 10)]
  }

  function TrimZeros(s: string): (r: string)
    ensures r <= s
    ensures r != "" ==> r[|r| - 1] != '0'
  {
    if s != "" && s[|s| - 1] == '0' then TrimZeros(s[..|s| - 1]) else s
  }

  /** The fraction digits as printed. */
  function Fraction(nanos: nat): string {
    TrimZeros(Digits(nanos, 9))
  }

  /** now.Format(time.RFC3339Nano). */
  function Format(s: Stamp): string {
    s.seconds + (if Fraction(s.nanos) == "" then "" else "." + Fraction(s.nanos)) + "Z"
  }

  // --------------------------------------------------- numbers and their digits

  function Pow10(k: nat): (p: nat)
    ensures p > 0
  {
    if k == 0 then 1 else 10 * Pow10(k - 1)
  }

  lemma DigitsSplit(n: nat, k: nat)
    requires k > 0
    ensures Digits(n, k)[..k - 1] == Digits(n / 10, k - 1) && Digits(n, k)[k - 1] == Digit(n % 10)
  {}

  lemma TenTimes(a: nat, b: nat, k: nat)
    requires a < b < Pow10(k)
    ensures k > 0 && b / 10 < Pow10(k - 1)
    ensures a / 10 < b / 10 || (a / 10 == b / 10 && Digit(a % 10) < Digit(b % 10))
  {}

  /** Of two numbers with k digits, the smaller has the smaller digit text. */
  lemma {:induction false} DigitsOrder(a: nat, b: nat, k: nat)
    requires a < b < Pow10(k)
    ensures exists j :: 0 <= j < k && Digits(a, k)[..j] == Digits(b, k)[..j] && Digits(a, k)[j] < Digits(b, k)[j]
  {
    hide Digits, Pow10, Digit;
    TenTimes(a, b, k);
    DigitsSplit(a, k);
    DigitsSplit(b, k);
    var da, db := Digits(a, k), Digits(b, k);
    if a / 10 < b / 10 {
      DigitsOrder(a / 10, b / 10, k - 1);
      var ea, eb := Digits(a / 10, k - 1), Digits(b / 10, k - 1);
      var j :| 0 <= j < k - 1 && ea[..j] == eb[..j] && ea[j] < eb[j];
      assert da[..k - 1][..j] == da[..j] && db[..k - 1][..j] == db[..j];
      assert da[..k - 1][j] == da[j] && db[..k - 1][j] == db[j];
    } else {
      assert da[k - 1] < db[k - 1];
    }
  }

  lemma {:induction false} TrimmedAreZeros(s: string)
    ensures forall i :: |TrimZeros(s)| <= i < |s| ==> s[i] == '0'
  {
    if s != "" && s[|s| - 1] == '0' {
      TrimmedAreZeros(s[..|s| - 1]);
      assert forall i :: 0 <= i < |s| - 1 ==> s[..|s| - 1][i] == s[i];
    }
  }

  // ------------------------------------------------------------ comparing the texts

  lemma {:induction false} LessAt(a: string, b: string, j: nat)
    requires j < |a| && j < |b| && a[..j] == b[..j] && a[j] < b[j]
    ensures Less(a, b) && !Less(b, a)
  {
    if j > 0 {
      assert a[..j][0] == b[..j][0];
      assert a[1..][..j - 1] == a[..j][1..] && b[1..][..j - 1] == b[..j][1..];
      LessAt(a[1..], b[1..], j - 1);
    }
  }

  lemma LessInside(p: string, a: string, b: string, u: string, v: string, j: nat)
    requires j < |a| && j < |b| && a[..j] == b[..j] && a[j] < b[j]
    ensures Less(p + a + u, p + b + v) && !Less(p + b + v, p + a + u)
  {
    var x, y := p + a + u, p + b + v;
    assert x[..|p| + j] == p + a[..j] && y[..|p| + j] == p + b[..j];
    assert x[|p| + j] == a[j] && y[|p| + j] == b[j];
    LessAt(x, y, |p| + j);
  }

  lemma {:induction false} FirstDifference(a: string, b: string) returns (j: nat)
    requires |a| == |b| && Less(a, b)
    ensures j < |a| && a[..j] == b[..j] && a[j] < b[j]
  {
    if a[0] < b[0] {
      j := 0;
    } else {
      var i := FirstDifference(a[1..], b[1..]);
      j := i + 1;
      assert a[..j] == [a[0]] + a[1..][..i] && b[..j] == [b[0]] + b[1..][..i];
    }
  }

  /** The printed fraction of the earlier time is the start of the later one's. */
  predicate FractionPrefix(s: Stamp, t: Stamp) {
    s.seconds == t.seconds && Fraction(s.nanos) <= Fraction(t.nanos)
  }

  lemma PrefixOfBoth(da: string, db: string, fa: string, fb: string, i: nat)
    requires fa <= da && fb <= db && i <= |da| && i < |fb| && da[..i] == db[..i]
    ensures |fa| <= i ==> fa <= fb
  {
    forall k | 0 <= k < |fa| && |fa| <= i
      ensures fa[k] == fb[k]
    {
      assert da[..i][k] == db[..i][k];
    }
  }

  lemma BillionIsPow()
    ensures Pow10(9) == BILLION
  {
    assert Pow10(3) == 1000;
    assert Pow10(6) == 1000 * Pow10(3);
    assert Pow10(9) == 1000 * Pow10(6);
  }

  lemma FractionsDiffer(a: nat, b: nat) returns (j: nat)
    requires a < b < BILLION && !(Fraction(a) <= Fraction(b))
    ensures j < |Fraction(a)| && j < |Fraction(b)|
    ensures Fraction(a)[..j] == Fraction(b)[..j] && Fraction(a)[j] < Fraction(b)[j]
  {
    BillionIsPow();
    hide Digits, TrimZeros, Pow10;
    DigitsOrder(a, b, 9);
    var da, db := Digits(a, 9), Digits(b, 9);
    j :| 0 <= j < 9 && da[..j] == db[..j] && da[j] < db[j];
    var fa, fb := Fraction(a), Fraction(b);
    TrimmedAreZeros(db);
    assert j < |fb|;
    PrefixOfBoth(da, db, fa, fb, j);
    assert fa[..j] == da[..j] && fb[..j] == db[..j];
  }

  lemma FormatHead(s: Stamp, t: Stamp, j: nat)
    requires StampOk(s) && StampOk(t) && j < 19
    requires s.seconds[..j] == t.seconds[..j] && s.seconds[j] < t.seconds[j]
    ensures Less(Format(s), Format(t)) && !Less(Format(t), Format(s))
  {
    var a, b := Format(s), Format(t);
    assert a[..j] == s.seconds[..j] && b[..j] == t.seconds[..j];
    LessAt(a, b, j);
  }

  /** What is printed after the seconds. */
  function Rest(s: Stamp): string {
    if Fraction(s.nanos) == "" then "Z" else "." + Fraction(s.nanos) + "Z"
  }

  lemma FormatRest(s: Stamp, t: Stamp, j: nat)
    requires s.seconds == t.seconds
    requires j < |Rest(s)| && j < |Rest(t)| && Rest(s)[..j] == Rest(t)[..j] && Rest(s)[j] < Rest(t)[j]
    ensures Less(Format(s), Format(t)) && !Less(Format(t), Format(s))
  {
    assert Format(s) == s.seconds + Rest(s) + "" && Format(t) == t.seconds + Rest(t) + "";
    LessInside(s.seconds, Rest(s), Rest(t), "", "", j);
  }

  /** The text order agrees with the order in time, except when the earlier
      fraction, as printed, is the start of the later one within one second: then
      the later time sorts first. */
  lemma TextOrder(s: Stamp, t: Stamp)
    requires StampOk(s) && StampOk(t) && Earlier(s, t)
    ensures Less(Format(s), Format(t)) <==> !FractionPrefix(s, t)
    ensures Less(Format(t), Format(s)) <==> FractionPrefix(s, t)
  {
    hide Fraction, Less;
    if Less(s.seconds, t.seconds) {
      var j := FirstDifference(s.seconds, t.seconds);
      FormatHead(s, t, j);
    } else {
      var fa, fb := Fraction(s.nanos), Fraction(t.nanos);
      if fa <= fb {
        FractionsAreDifferent(s.nanos, t.nanos);
        if fa == "" {
          assert Rest(t)[0] == '.' && Rest(s)[0] == 'Z';
          FormatRest(t, s, 0);
        } else {
          var j := 1 + |fa|;
          assert Rest(s)[..j] == "." + fa && Rest(t)[..j] == "." + fb[..|fa|];
          assert Rest(s)[j] == 'Z' && Rest(t)[j] == fb[|fa|];
          FormatRest(t, s, j);
        }
      } else {
        var j := FractionsDiffer(s.nanos, t.nanos);
        assert Rest(s)[..j + 1] == "." + fa[..j] && Rest(t)[..j + 1] == "." + fb[..j];
        FormatRest(s, t, j + 1);
      }
    }
  }

  lemma FractionsAreDifferent(a: nat, b: nat)
    requires a < b < BILLION
    ensures Fraction(a) != Fraction(b)
    ensures forall i :: 0 <= i < |Fraction(b)| ==> Fraction(b)[i] <= '9'
  {
    BillionIsPow();
    hide Digits, TrimZeros, Pow10;
    DigitsOrder(a, b, 9);
    var da, db := Digits(a, 9), Digits(b, 9);
    TrimmedAreZeros(da);
    TrimmedAreZeros(db);
    var i :| 0 <= i < 9 && da[..i] == db[..i] && da[i] < db[i];
    assert i < |Fraction(b)| && Fraction(b)[i] == db[i];
    assert i < |Fraction(a)| ==> Fraction(a)[i] == da[i];
  }

  /** A last zero is dropped. */
  lemma DropZero(x: nat, m: nat)
    requires m > 0
    ensures TrimZeros(Digits(10 * x, m)) == TrimZeros(Digits(x, m - 1))
  {
    var d := Digits(10 * x, m);
    assert d == Digits(x, m - 1) + [Digit(0)];
    assert d[..|d| - 1] == Digits(x, m - 1);
  }

  lemma TenthPrinted()
    ensures Fraction(100_000_000) == "1"
  {
    DropZero(10_000_000, 9);
    DropZero(1_000_000, 8);
    DropZero(100_000, 7);
    DropZero(10_000, 6);
    DropZero(1_000, 5);
    DropZero(100, 4);
    DropZero(10, 3);
    DropZero(1, 2);
    assert Digits(1, 1) == [Digit(1)];
    hide Digits;
  }

  lemma TwelveHundredthsPrinted()
    ensures Fraction(120_000_000) == "12"
  {
    DropZero(12_000_000, 9);
    DropZero(1_200_000, 8);
    DropZero(120_000, 7);
    DropZero(12_000, 6);
    DropZero(1_200, 5);
    DropZero(120, 4);
    DropZero(12, 3);
    assert Digits(12, 2) == Digits(1, 1) + [Digit(2)] == [Digit(1), Digit(2)];
    hide Digits;
  }

  /** A tenth of a second sorts after twelve hundredths of the same second. */
  lemma TenthSortsAfterTwelveHundredths(seconds: string)
    requires |seconds| == 19
    ensures Earlier(Stamp(seconds, 100_000_000), Stamp(seconds, 120_000_000))
    ensures Less(Format(Stamp(seconds, 120_000_000)), Format(Stamp(seconds, 100_000_000)))
  {
    var s, t := Stamp(seconds, 100_000_000), Stamp(seconds, 120_000_000);
    TenthPrinted();
    TwelveHundredthsPrinted();
    hide Fraction, Format;
    TextOrder(s, t);
  }

  /** The value of a text of decimal digits. */
  function Value(t: string): int {
    if t == "" then 0 else Value(t[..|t| - 1]) * 10 + (t[|t| - 1] as int - '0' as int)
  }

  /** The digits of a number, padded with zeros, are read back as it. */
  lemma {:induction false} DigitsWrite(n: nat, k: nat)
    requires n < Pow10(k)
    ensures Value(Digits(n, k)) == n
  {
    if k > 0 {
      DigitsWrite(n / 10, k - 1);
      var t := Digits(n / 10, k - 1);
      assert Digits(n, k)[..k - 1] == t;
      assert n == n / 10 * 10 + n % 10;
    }
  }

  function Zeros(k: nat): (r: string)
    ensures |r| == k && forall i :: 0 <= i < k ==> r[i] == '0'
  {
    seq(k, _ => '0')
  }

  /** The printed fraction, filled up with zeros to nine digits, is the nanoseconds. */
  lemma FractionWrites(nanos: nat)
    requires nanos < 1_000_000_000
    ensures |Fraction(nanos)| <= 9
    ensures Value(Fraction(nanos) + Zeros(9 - |Fraction(nanos)|)) == nanos
    ensures Fraction(nanos) != "" ==> Fraction(nanos)[|Fraction(nanos)| - 1] != '0'
  {
    BillionIsPow();
    DigitsWrite(nanos, 9);
    hide Digits, Pow10, TrimZeros;
    var d := Digits(nanos, 9);
    TrimmedAreZeros(d);
    assert Fraction(nanos) + Zeros(9 - |Fraction(nanos)|) == d;
  }

  /** A time without nanoseconds has no fraction; others have a point and digits. */
  lemma FormatIs(seconds: string)
    ensures Format(Stamp(seconds, 0)) == seconds + "Z"
    ensures Format(Stamp(seconds, 120_000_000)) == seconds + ".12Z"
  {
    hide Digits, TrimZeros;
    TwelveHundredthsPrinted();
    NoFraction(9);
    assert seconds + "." + "12" + "Z" == seconds + ".12Z";
    hide Fraction;
  }

  lemma NothingToTrim()
    ensures TrimZeros("") == ""
  {}

  lemma {:induction false} NoFraction(k: nat)
    ensures TrimZeros(Digits(0, k)) == ""
  {
    hide Digits, TrimZeros;
    if k > 0 {
      NoFraction(k - 1);
      DropZero(0, k);
    } else {
      assert Digits(0, 0) == "";
      NothingToTrim();
    }
  }
}
