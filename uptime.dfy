/**
 * `formatUptime` of the stats endpoint (server.js:268-272): a duration in
 * milliseconds is cut into whole days, hours and minutes and written as
 * `<d>d <h>h <m>m` in decimal.
 */
module Uptime {

  /** Whole days, the hours left over and the minutes left over. */
  datatype Parts = Parts(days: nat, hours: nat, minutes: nat)

  const SecondsPerDay: nat := 86400
  const SecondsPerHour: nat := 3600
  const SecondsPerMinute: nat := 60

  /** The seconds a split accounts for, below the minute. */
  function Seconds(p: Parts): nat {
    p.days * SecondsPerDay + p.hours * SecondsPerHour + p.minutes * SecondsPerMinute
  }

  /** A split whose hours and minutes fit below the next unit and that accounts for `s` seconds to the minute. */
  predicate Splits(p: Parts, s: nat) {
    p.hours < 24 && p.minutes < 60 && Seconds(p) <= s < Seconds(p) + 60
  }

  /** The floor divisions of server.js:269-270 on a non-negative duration. */
  function Split(ms: nat): (p: Parts)
    ensures Splits(p, ms / 1000)
  {
    var s := ms / 1000;
    Parts(s / 86400, (s % 86400) / 3600, (s % 3600) / 60)
  }

  /** There is only one split of a number of seconds, so `Split` is the split. */
  lemma SplitUnique(p: Parts, q: Parts, s: nat)
    requires Splits(p, s) && Splits(q, s)
    ensures p == q
  {
    assert Seconds(p) == 60 * (1440 * p.days + 60 * p.hours + p.minutes);
    assert Seconds(q) == 60 * (1440 * q.days + 60 * q.hours + q.minutes);
    MinutesUnique(1440 * p.days + 60 * p.hours + p.minutes, 1440 * q.days + 60 * q.hours + q.minutes, s);
    DigitsOfMinutes(p, q);
  }

  lemma MinutesUnique(x: nat, y: nat, s: nat)
    requires 60 * x <= s < 60 * x + 60 && 60 * y <= s < 60 * y + 60
    ensures x == y
  {
  }

  /** Days, hours and minutes are the mixed-radix digits of the total minute count. */
  lemma DigitsOfMinutes(p: Parts, q: Parts)
    requires p.hours < 24 && p.minutes < 60 && q.hours < 24 && q.minutes < 60
    requires 1440 * p.days + 60 * p.hours + p.minutes == 1440 * q.days + 60 * q.hours + q.minutes
    ensures p == q
  {
    var hp, hq := 60 * p.hours + p.minutes, 60 * q.hours + q.minutes;
    assert hp < 1440 && hq < 1440;
    assert p.days < q.days ==> 1440 * q.days >= 1440 * p.days + 1440;
    assert q.days < p.days ==> 1440 * p.days >= 1440 * q.days + 1440;
    assert hp == hq;
    assert p.hours < q.hours ==> 60 * q.hours >= 60 * p.hours + 60;
    assert q.hours < p.hours ==> 60 * p.hours >= 60 * q.hours + 60;
  }

  predicate IsDigit(c: char) {
    '0' <= c <= '9'
  }

  predicate AllDigits(s: string) {
    forall i :: 0 <= i < |s| ==> IsDigit(s[i])
  }

  function DigitChar(d: nat): (c: char)
    requires d < 10
    ensures IsDigit(c)
  {
    ['0', '1', '2', '3', '4', '5', '6', '7', '8', '9'][d]
  }

  function DigitValue(c: char): nat
    requires IsDigit(c)
  {
    (c as int - '0' as int) as nat
  }

  /** The number a string of decimal digits denotes. */
  function DecimalValue(s: string): nat
    requires AllDigits(s)
  {
    if s == [] then 0 else 10 * DecimalValue(s[..|s| - 1]) + DigitValue(s[|s| - 1])
  }

  /** The decimal numeral of `n`, as template-string interpolation writes a non-negative integer. */
  function Decimal(n: nat): (s: string)
    ensures s != [] && AllDigits(s)
    ensures |s| > 1 ==> s[0] != '0'
    decreases n
  {
    if n < 10 then [DigitChar(n)] else Decimal(n / 10) + [DigitChar(n % 10)]
  }

  /** Reading the numeral back gives the number. */
  lemma {:induction false} DecimalRoundTrip(n: nat)
    ensures DecimalValue(Decimal(n)) == n
    decreases n
  {
    var s := Decimal(n);
    if n < 10 {
      assert DigitValue(DigitChar(n)) == n;
    } else {
      DecimalRoundTrip(n / 10);
      assert s[..|s| - 1] == Decimal(n / 10);
      assert DigitValue(DigitChar(n % 10)) == n % 10;
    }
  }

  /** Different numbers have different numerals. */
  lemma DecimalInjective(a: nat, b: nat)
    requires Decimal(a) == Decimal(b)
    ensures a == b
  {
    DecimalRoundTrip(a);
    DecimalRoundTrip(b);
  }

  /** One interpolated number followed by its unit letter. */
  function Field(n: nat, unit: char): string {
    Decimal(n) + [unit]
  }

  /** The text of a split: `${d}d ${h}h ${m}m`. */
  function Format(p: Parts): string {
    Field(p.days, 'd') + (" " + (Field(p.hours, 'h') + (" " + Field(p.minutes, 'm'))))
  }

  /** The text `formatUptime` returns. */
  function FormatUptime(ms: nat): string {
    Format(Split(ms))
  }

  /**
   * In `a + [c] + r` with `a` all digits and `c` not a digit, the first
   * non-digit sits right after `a`, so `a` and the rest are determined.
   */
  lemma SplitAtNonDigit(a1: string, r1: string, a2: string, r2: string, c: char)
    requires AllDigits(a1) && AllDigits(a2) && !IsDigit(c)
    requires a1 + [c] + r1 == a2 + [c] + r2
    ensures a1 == a2 && r1 == r2
  {
    var t := a1 + [c] + r1;
    // the shorter numeral would be followed by `c` where the longer one has a digit
    assert t[|a1|] == c && t[|a2|] == c;
    assert a1 == t[..|a1|] == a2;
    assert r1 == t[|a1| + 1..] == r2;
  }

  /** A field at the front of a text is read back unambiguously. */
  lemma FieldPrefix(n1: nat, r1: string, n2: nat, r2: string, unit: char)
    requires !IsDigit(unit)
    requires Field(n1, unit) + r1 == Field(n2, unit) + r2
    ensures n1 == n2 && r1 == r2
  {
    SplitAtNonDigit(Decimal(n1), r1, Decimal(n2), r2, unit);
    DecimalInjective(n1, n2);
  }

  lemma DropSpace(x: string, y: string)
    requires " " + x == " " + y
    ensures x == y
  {
    assert x == (" " + x)[1..];
    assert y == (" " + y)[1..];
  }

  /** Different splits are written differently. */
  lemma FormatInjective(p: Parts, q: Parts)
    requires Format(p) == Format(q)
    ensures p == q
  {
    var pm, qm := " " + Field(p.minutes, 'm'), " " + Field(q.minutes, 'm');
    var ph, qh := " " + (Field(p.hours, 'h') + pm), " " + (Field(q.hours, 'h') + qm);
    FieldPrefix(p.days, ph, q.days, qh, 'd');
    DropSpace(Field(p.hours, 'h') + pm, Field(q.hours, 'h') + qm);
    FieldPrefix(p.hours, pm, q.hours, qm, 'h');
    DropSpace(Field(p.minutes, 'm'), Field(q.minutes, 'm'));
    assert Field(p.minutes, 'm') + [] == Field(q.minutes, 'm') + [];
    FieldPrefix(p.minutes, [], q.minutes, [], 'm');
  }

  /**
   * Two durations that differ in whole minutes are shown differently: the text
   * determines the days, hours and minutes, and these the minute count.
   */
  lemma FormatUptimeDistinguishes(ms1: nat, ms2: nat)
    requires ms1 / 60000 != ms2 / 60000
    ensures FormatUptime(ms1) != FormatUptime(ms2)
  {
    MinuteCount(ms1);
    MinuteCount(ms2);
    if FormatUptime(ms1) == FormatUptime(ms2) {
      FormatInjective(Split(ms1), Split(ms2));
    }
  }

  /** The split of a duration counts its whole minutes. */
  lemma MinuteCount(ms: nat)
    ensures var p := Split(ms);
      1440 * p.days + 60 * p.hours + p.minutes == ms / 60000
  {
  }
}
