/**
 * The 6-hourly time grid of the GFS snapshots: rounding an hour down to its
 * bucket (`roundHours`), the stamp `YYYYMMDDHH` built from an instant, and
 * the `YYYYMMDD/HH/atmos` path derived from a stamp.
 *
 * An instant is a whole number of UTC hours since 1970-01-01T00:00Z; its day
 * is `t / 24` and its hour of day `t % 24` (both floor, as the calendar is).
 */
module TimeGrid {
  import opened Wrappers

  /** Spacing of the published snapshots, in hours. */
  const Cadence: int := 6

  /** Global index of the 6-hour bucket holding instant `t`. */
  function Bucket(t: int): int
  {
    t / Cadence
  }

  // ----- decimal text -----

  function DigitChar(d: int): char
    requires 0 <= d < 10
  {
    (('0' as int) + d) as char
  }

  function DigitValue(c: char): int
  {
    (c as int) - ('0' as int)
  }

  predicate IsDigit(c: char)
  {
    '0' <= c <= '9'
  }

  function Pow10(k: nat): nat
  {
    if k == 0 then 1 else 10 * Pow10(k - 1)
  }

  /** Decimal digits of `n`, most significant first (JavaScript's `toString`). */
  function Digits(n: nat): (s: string)
    ensures 1 <= |s|
    ensures forall i :: 0 <= i < |s| ==> IsDigit(s[i])
    ensures n < 10 <==> |s| == 1
    ensures 10 <= n < 100 ==> |s| == 2
    decreases n
  {
    if n < 10 then [DigitChar(n)] else Digits(n / 10) + [DigitChar(n % 10)]
  }

  /** Value of a string of decimal digits, read most significant first. */
  function ParseDigits(s: string): int
  {
    if |s| == 0 then 0 else 10 * ParseDigits(s[..|s| - 1]) + DigitValue(s[|s| - 1])
  }

  lemma {:induction false} DigitsRoundTrip(n: nat)
    ensures ParseDigits(Digits(n)) == n
    decreases n
  {
    if n >= 10 {
      DigitsRoundTrip(n / 10);
      var s := Digits(n);
      assert s[..|s| - 1] == Digits(n / 10);
    }
  }

  lemma {:induction false} DigitsLength(n: nat, k: nat)
    requires 1 <= k && n < Pow10(k)
    ensures |Digits(n)| <= k
    decreases k
  {
    if n >= 10 {
      assert n / 10 < Pow10(k - 1);
      DigitsLength(n / 10, k - 1);
    }
  }

  /** A leading zero does not change the value of a digit string. */
  lemma {:induction false} LeadingZero(s: string)
    ensures ParseDigits(['0'] + s) == ParseDigits(s)
    decreases |s|
  {
    if |s| > 0 {
      var z := ['0'] + s;
      assert z[..|z| - 1] == ['0'] + s[..|s| - 1];
      LeadingZero(s[..|s| - 1]);
    } else {
      assert (['0'] + s)[..0] == [];
    }
  }

  /** `n` copies of `c`. */
  function Fill(n: nat, c: char): (r: string)
    ensures |r| == n && forall i :: 0 <= i < n ==> r[i] == c
  {
    if n == 0 then [] else [c] + Fill(n - 1, c)
  }

  /** `s` left-padded with `fill` to at least `width` characters (JavaScript's `padStart`). */
  function PadStart(s: string, width: int, fill: char): (r: string)
    ensures |r| == if |s| >= width then |s| else width
    ensures r[|r| - |s|..] == s
    ensures forall i :: 0 <= i < |r| - |s| ==> r[i] == fill
  {
    if |s| >= width then s else Fill(width - |s|, fill) + s
  }

  lemma {:induction false} ZerosParse(n: nat, s: string)
    ensures ParseDigits(Fill(n, '0') + s) == ParseDigits(s)
    decreases n
  {
    if n > 0 {
      assert Fill(n, '0') + s == ['0'] + (Fill(n - 1, '0') + s);
      LeadingZero(Fill(n - 1, '0') + s);
      ZerosParse(n - 1, s);
    } else {
      assert Fill(n, '0') + s == s;
    }
  }

  lemma PadStartParse(s: string, width: int)
    ensures ParseDigits(PadStart(s, width, '0')) == ParseDigits(s)
  {
    if |s| < width {
      ZerosParse(width - |s|, s);
    }
  }

  /** Text of an integer, as JavaScript converts a number to a string. */
  function IntText(v: int): string
  {
    if v < 0 then "-" + Digits(-v) else Digits(v)
  }

  // ----- roundHours -----

  /** `Math.floor(hours / interval) * interval`: the largest multiple of `interval` not above `hours`. */
  function FloorToMultiple(hours: int, interval: int): (r: int)
    requires interval > 0
    ensures r % interval == 0
    ensures r <= hours < r + interval
  {
    MultipleMod(hours / interval, interval);
    (hours / interval) * interval
  }

  lemma {:induction false} MulAtLeast(m: int, k: int)
    requires m > 0 && k >= 1
    ensures m * k >= m && m * -k <= -m
    decreases k
  {
    if k > 1 {
      MulAtLeast(m, k - 1);
      assert m * k == m * (k - 1) + m;
    }
  }

  /** Euclidean division is determined by its quotient-remainder equation. */
  lemma DivUnique(x: int, m: int, q: int, r: int)
    requires m > 0 && 0 <= r < m && x == m * q + r
    ensures x / m == q && x % m == r
  {
    var q0, r0 := x / m, x % m;
    assert x == m * q0 + r0;
    assert m * (q - q0) == r0 - r;
    if q > q0 {
      MulAtLeast(m, q - q0);
    } else if q < q0 {
      MulAtLeast(m, q0 - q);
    }
  }

  lemma MultipleMod(q: int, m: int)
    requires m > 0
    ensures (q * m) % m == 0
  {
    DivUnique(q * m, m, q, 0);
  }

  /** The multiple of `interval` that `FloorToMultiple` finds is the only one within `interval` below `hours`. */
  lemma FloorToMultipleUnique(hours: int, interval: int, m: int)
    requires interval > 0
    requires m % interval == 0 && m <= hours < m + interval
    ensures FloorToMultiple(hours, interval) == m
  {
    var b := m / interval;
    assert m == interval * b;
    DivUnique(hours, interval, b, hours - m);
  }

  /** The hour label `roundHours` yields: zero-padded below 10, plain number text otherwise. */
  function HourLabel(v: int): string
  {
    if v < 10 then "0" + IntText(v) else IntText(v)
  }

  /** `roundHours(hours, interval)`; `None` is JavaScript's `undefined` for a non-positive interval. */
  function RoundHours(hours: int, interval: int): (r: Option<string>)
    ensures r.Some? <==> interval > 0
  {
    if interval > 0 then Some(HourLabel(FloorToMultiple(hours, interval))) else None
  }

  /** A label of a non-negative value is at least two digits, exactly two below 100, and reads back as the value. */
  lemma HourLabelShape(v: int)
    requires 0 <= v
    ensures |HourLabel(v)| >= 2
    ensures v < 100 ==> |HourLabel(v)| == 2
    ensures v < 10 ==> HourLabel(v)[0] == '0'
    ensures forall i :: 0 <= i < |HourLabel(v)| ==> IsDigit(HourLabel(v)[i])
    ensures ParseDigits(HourLabel(v)) == v
  {
    DigitsRoundTrip(v);
    if v < 10 {
      LeadingZero(Digits(v));
    }
  }

  /** For `interval > 0` the label is the padded text of the floored multiple and reads back as it. */
  lemma RoundHoursMeaning(hours: int, interval: int)
    requires interval > 0 && 0 <= hours
    ensures RoundHours(hours, interval).Some?
    ensures ParseDigits(RoundHours(hours, interval).value) == FloorToMultiple(hours, interval)
    ensures FloorToMultiple(hours, interval) < 10 ==> |RoundHours(hours, interval).value| == 2
    ensures FloorToMultiple(hours, interval) % interval == 0
    ensures hours - interval < FloorToMultiple(hours, interval) <= hours
  {
    var m := FloorToMultiple(hours, interval);
    assert 0 <= m by {
      if m < 0 {
        FloorToMultipleUnique(hours, interval, 0);
      }
    }
    HourLabelShape(m);
  }

  // ----- stamps -----

  /**
   * A stamp as the pair it is built from: the UTC day and the rounded hour.
   * `Text` spells it the way the server does; the store and the upstream
   * requests are keyed by it.
   */
  datatype Stamp = Stamp(day: int, hour: int)

  /** The stamp of instant `t`: its day and its hour rounded down to the cadence (see `BucketLabelCycles`). */
  function StampOf(t: int): Stamp
  {
    Stamp(t / 24, 6 * ((t % 24) / 6))
  }

  /** `format('YYYYMMDD')` of a day: the day number zero-padded to eight digits stands for the calendar date. */
  function DateText(day: int): string
  {
    if day >= 0 then PadStart(Digits(day), 8, '0') else "-" + PadStart(Digits(-day), 7, '0')
  }

  /** The label `roundHours(hour(t), 6)` of instant `t`. */
  function BucketLabel(t: int): string
  {
    RoundHours(t % 24, Cadence).value
  }

  /** The stamp `YYYYMMDD` + `roundHours(hour, 6)` built by the latest resolver and the harvester. */
  function Key(t: int): string
  {
    DateText(t / 24) + BucketLabel(t)
  }

  /** The stamp built by the nearest resolver, which pads the label again with `padStart(2, '0')`. */
  function NearestKey(t: int): string
  {
    DateText(t / 24) + PadStart(BucketLabel(t), 2, '0')
  }

  /** The text of a stamp value. */
  function Text(s: Stamp): string
  {
    DateText(s.day) + HourLabel(s.hour)
  }

  /** JavaScript's `String.prototype.slice(begin, end)` for non-negative arguments. */
  function Slice(s: string, begin: nat, end: nat): (r: string)
    ensures |r| <= |s|
  {
    var b := if begin < |s| then begin else |s|;
    var e := if end < b then b else if end < |s| then end else |s|;
    s[b..e]
  }

  /** The upstream directory suffix `YYYYMMDD/HH/atmos` of a stamp. */
  function UrlStamp(stamp: string): string
  {
    Slice(stamp, 0, 8) + "/" + Slice(stamp, 8, 10) + "/atmos"
  }

  /** Appending the instants looked up one at a time regroups freely. */
  lemma AppendAssoc(a: seq<int>, b: seq<int>, c: seq<int>)
    ensures a + b + c == a + (b + c)
  {
  }

  /** Day and hour bucket of an instant, read off its global bucket index. */
  lemma BucketParts(t: int)
    ensures t / 24 == Bucket(t) / 4
    ensures (t % 24) / 6 == Bucket(t) % 4
    ensures Bucket(t - Cadence) == Bucket(t) - 1
  {
    var b := t / 6;
    var r := t % 6;
    var d := b / 4;
    var s := b % 4;
    assert t == 24 * d + (6 * s + r);
    assert 0 <= 6 * s + r < 24;
  }

  lemma BucketStep(t: int, i: int)
    ensures Bucket(t - 6 * i) == Bucket(t) - i
  {
    DivUnique(t - 6 * i, 6, t / 6 - i, t % 6);
  }

  lemma BucketMonotone(t1: int, t2: int)
    requires t1 <= t2
    ensures Bucket(t1) <= Bucket(t2)
  {
  }

  /** The hour label of every instant is one of the four GFS cycles. */
  lemma BucketLabelCycles(t: int)
    ensures StampOf(t).hour == 6 * (Bucket(t) % 4) == FloorToMultiple(t % 24, Cadence)
    ensures BucketLabel(t) == HourLabel(StampOf(t).hour)
    ensures BucketLabel(t) in {"00", "06", "12", "18"}
  {
    BucketParts(t);
    var h := t % 24;
    var s := Bucket(t) % 4;
    DivUnique(h, 6, s, h - 6 * s);
    FloorToMultipleUnique(h, 6, 6 * s);
    if s == 0 {
      assert HourLabel(0) == "0" + Digits(0) == "00";
    } else if s == 1 {
      assert HourLabel(6) == "0" + Digits(6) == "06";
    } else if s == 2 {
      assert Digits(12) == Digits(1) + [DigitChar(2)] == "12";
    } else {
      assert Digits(18) == Digits(1) + [DigitChar(8)] == "18";
    }
  }

  /** Both spellings of the stamp of an instant are the text of its stamp value. */
  lemma KeyIsText(t: int)
    ensures Key(t) == Text(StampOf(t))
    ensures NearestKey(t) == Key(t)
  {
    BucketLabelCycles(t);
  }

  /** Two instants have the same stamp exactly when they lie in the same 6-hour bucket. */
  lemma SameStampIffSameBucket(t1: int, t2: int)
    ensures StampOf(t1) == StampOf(t2) <==> Bucket(t1) == Bucket(t2)
  {
    BucketParts(t1);
    BucketParts(t2);
    BucketLabelCycles(t1);
    BucketLabelCycles(t2);
    var b1, b2 := Bucket(t1), Bucket(t2);
    if StampOf(t1) == StampOf(t2) {
      DivUnique(b1, 4, b2 / 4, b2 % 4);
    }
  }

  lemma DateTextShape(day: int)
    requires 0 <= day < Pow10(8)
    ensures |DateText(day)| == 8
    ensures ParseDigits(DateText(day)) == day
  {
    DigitsLength(day, 8);
    PadStartParse(Digits(day), 8);
    DigitsRoundTrip(day);
  }

  lemma SliceConcat(d: string, l: string)
    requires |d| == 8 && |l| == 2
    ensures Slice(d + l, 0, 8) == d && Slice(d + l, 8, 10) == l
  {
    assert (d + l)[0..8] == d;
    assert (d + l)[8..10] == l;
  }

  /** A stamp is ten characters, and the two slices of the urlstamp put back together give it. */
  lemma UrlStampParts(t: int)
    requires 0 <= t < 24 * Pow10(8)
    ensures |Key(t)| == 10
    ensures Slice(Key(t), 0, 8) == DateText(t / 24)
    ensures Slice(Key(t), 8, 10) == BucketLabel(t)
    ensures Slice(Key(t), 0, 8) + Slice(Key(t), 8, 10) == Key(t)
    ensures UrlStamp(Key(t)) == DateText(t / 24) + "/" + BucketLabel(t) + "/atmos"
  {
    DateTextShape(t / 24);
    BucketLabelCycles(t);
    SliceConcat(DateText(t / 24), BucketLabel(t));
  }

  /** The stamp text identifies its stamp value, hence the bucket: equal texts mean the same bucket. */
  lemma KeyInjective(t1: int, t2: int)
    requires 0 <= t1 < 24 * Pow10(8) && 0 <= t2 < 24 * Pow10(8)
    requires Key(t1) == Key(t2)
    ensures StampOf(t1) == StampOf(t2)
    ensures Bucket(t1) == Bucket(t2)
  {
    UrlStampParts(t1);
    UrlStampParts(t2);
    DateTextShape(t1 / 24);
    DateTextShape(t2 / 24);
    BucketLabelCycles(t1);
    BucketLabelCycles(t2);
    HourLabelShape(StampOf(t1).hour);
    HourLabelShape(StampOf(t2).hour);
    SameStampIffSameBucket(t1, t2);
  }
}
