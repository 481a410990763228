/**
 * The pure helpers of the election site's utility object: thousands separators,
 * "time ago" phrases, hex colour parsing, Discord id validation and the
 * width-based device class.
 */
module Utils {
  import opened Wrappers
  import opened Decimal
  import Config

  // ---------------------------------------------------------------------------
  // formatNumber
  // ---------------------------------------------------------------------------

  /** Inserts a comma before every complete group of three digits counted from the right. */
  function Group(digits: string): (g: string)
    ensures digits != [] ==> |g| == |digits| + (|digits| - 1) / 3
    decreases |digits|
  {
    if |digits| <= 3 then digits
    else Group(digits[..|digits| - 3]) + "," + digits[|digits| - 3..]
  }

  /**
   * `formatNumber` on an integer: a minus sign exactly for a negative number, then the
   * digits of its magnitude in groups of three separated by commas.
   */
  function FormatNumber(n: int): (s: string)
    ensures s != [] && s[0] != ',' && (s[0] == '-' <==> n < 0)
    ensures var magnitude := if n < 0 then s[1..] else s;
            && Grouped(magnitude)
            && StripCommas(magnitude) == NatToString(if n < 0 then -n else n)
  {
    var m: nat := if n < 0 then -n else n;
    var g := Group(NatToString(m));
    GroupIsGrouped(NatToString(m));
    GroupStripsBack(NatToString(m));
    GroupedStartsWithDigit(g);
    if n < 0 then "-" + g else g
  }

  /** The text with every comma deleted. */
  function StripCommas(s: string): (r: string)
    ensures |r| <= |s|
  {
    if s == [] then []
    else if s[0] == ',' then StripCommas(s[1..])
    else [s[0]] + StripCommas(s[1..])
  }

  lemma {:induction false} StripCommasAppend(a: string, b: string)
    ensures StripCommas(a + b) == StripCommas(a) + StripCommas(b)
    decreases |a|
  {
    if a == [] {
      assert a + b == b;
    } else {
      assert (a + b)[1..] == a[1..] + b;
      StripCommasAppend(a[1..], b);
    }
  }

  lemma {:induction false} StripCommasOfDigits(s: string)
    requires AllDigits(s)
    ensures StripCommas(s) == s
    decreases |s|
  {
    if s != [] {
      StripCommasOfDigits(s[1..]);
    }
  }

  /** Deleting the separators gives back exactly the digits that were grouped. */
  lemma {:induction false} GroupStripsBack(digits: string)
    requires AllDigits(digits)
    ensures StripCommas(Group(digits)) == digits
    decreases |digits|
  {
    if |digits| <= 3 {
      StripCommasOfDigits(digits);
    } else {
      var front, back := digits[..|digits| - 3], digits[|digits| - 3..];
      GroupStripsBack(front);
      StripCommasAppend(Group(front) + ",", back);
      StripCommasAppend(Group(front), ",");
      StripCommasOfDigits(back);
      assert digits == front + back;
    }
  }

  /**
   * The shape of a grouped number: a first group of one to three digits, then any
   * number of groups of a comma followed by exactly three digits.
   */
  predicate Grouped(s: string)
    decreases |s|
  {
    (1 <= |s| <= 3 && AllDigits(s))
    || (|s| >= 5 && s[|s| - 4] == ',' && AllDigits(s[|s| - 3..]) && Grouped(s[..|s| - 4]))
  }

  lemma {:induction false} GroupIsGrouped(digits: string)
    requires digits != [] && AllDigits(digits)
    ensures Grouped(Group(digits))
    decreases |digits|
  {
    if |digits| > 3 {
      var front, back := digits[..|digits| - 3], digits[|digits| - 3..];
      GroupIsGrouped(front);
      var g := Group(digits);
      assert g == Group(front) + "," + back;
      assert g[..|g| - 4] == Group(front);
      assert g[|g| - 3..] == back;
    }
  }

  /** For a non-negative integer, reading the digits of `formatNumber` without its commas gives the number. */
  lemma FormatNumberDigits(n: nat)
    ensures DigitsValue(StripCommas(FormatNumber(n))) == n
  {
    NatToStringRoundTrip(n);
  }

  lemma {:induction false} GroupedStartsWithDigit(s: string)
    requires Grouped(s)
    ensures s != [] && IsDigit(s[0])
    decreases |s|
  {
    if !(1 <= |s| <= 3 && AllDigits(s)) {
      GroupedStartsWithDigit(s[..|s| - 4]);
    }
  }

  /** Values below one thousand are printed unchanged. */
  lemma FormatSmallUnchanged(n: int)
    requires -1000 < n < 1000
    ensures FormatNumber(n) == IntToString(n)
  {
    var m: nat := if n < 0 then -n else n;
    NatToStringLength(m, 3);
    assert Pow10(3) == 1000;
  }

  // ---------------------------------------------------------------------------
  // timeAgo
  // ---------------------------------------------------------------------------

  datatype Interval = Interval(unit: string, seconds: nat)

  /** The units `timeAgo` tries, largest first, with their lengths in seconds. */
  const Intervals: seq<Interval> := [
    Interval("year", 31536000),
    Interval("month", 2592000),
    Interval("week", 604800),
    Interval("day", 86400),
    Interval("hour", 3600),
    Interval("minute", 60)
  ]

  const JUST_NOW := "Just now"

  /** The phrase for `count` whole units, with a plural 's' after a count above one. */
  function Phrase(count: nat, unit: string): (s: string)
    ensures NatToString(count) <= s
  {
    NatToString(count) + " " + unit + (if count > 1 then "s" else "") + " ago"
  }

  /** The first interval of `units` that fits at least once in `elapsed`, phrased; "Just now" if none does. */
  function Describe(units: seq<Interval>, elapsed: int): string
    requires forall i :: 0 <= i < |units| ==> units[i].seconds > 0
  {
    if units == [] then JUST_NOW
    else
      var count := elapsed / units[0].seconds;
      if count >= 1 then Phrase(count, units[0].unit) else Describe(units[1..], elapsed)
  }

  /** `timeAgo` given the elapsed time in whole seconds. */
  function TimeAgoText(elapsed: int): string
  {
    Describe(Intervals, elapsed)
  }

  /** `timeAgo`'s loop over the unit table, which stops at the first unit that fits. */
  method TimeAgo(elapsed: int) returns (text: string)
    ensures text == TimeAgoText(elapsed)
  {
    var i := 0;
    while i < |Intervals|
      invariant 0 <= i <= |Intervals|
      invariant Describe(Intervals[i..], elapsed) == TimeAgoText(elapsed)
    {
      var interval := elapsed / Intervals[i].seconds;
      if interval >= 1 {
        return Phrase(interval, Intervals[i].unit);
      }
      assert Intervals[i..][1..] == Intervals[i + 1..];
      i := i + 1;
    }
    return JUST_NOW;
  }

  lemma FitsOnce(elapsed: int, size: nat)
    requires size > 0
    ensures elapsed / size >= 1 <==> elapsed >= size
  {
    var q, m := elapsed / size, elapsed % size;
    assert elapsed == size * q + m && 0 <= m < size;
    if q >= 1 {
      assert size * q >= size;
    } else {
      assert size * q <= 0;
    }
  }

  lemma {:induction false} DescribeNone(units: seq<Interval>, elapsed: int)
    requires forall i :: 0 <= i < |units| ==> units[i].seconds > 0
    requires forall i :: 0 <= i < |units| ==> units[i].seconds > elapsed
    ensures Describe(units, elapsed) == JUST_NOW
    decreases |units|
  {
    if units != [] {
      FitsOnce(elapsed, units[0].seconds);
      DescribeNone(units[1..], elapsed);
    }
  }

  /** Anything under a minute, including a negative elapsed time, reads "Just now". */
  lemma TimeAgoJustNow(elapsed: int)
    requires elapsed < 60
    ensures TimeAgoText(elapsed) == JUST_NOW
  {
    DescribeNone(Intervals, elapsed);
  }

  lemma {:induction false} DescribeFirstFit(units: seq<Interval>, elapsed: int, k: nat)
    requires forall i :: 0 <= i < |units| ==> units[i].seconds > 0
    requires k < |units| && units[k].seconds <= elapsed
    requires forall j :: 0 <= j < k ==> units[j].seconds > elapsed
    ensures Describe(units, elapsed) == Phrase(elapsed / units[k].seconds, units[k].unit)
    decreases k
  {
    FitsOnce(elapsed, units[0].seconds);
    if k > 0 {
      DescribeFirstFit(units[1..], elapsed, k - 1);
    }
  }

  /**
   * From one minute on, `timeAgo` phrases the elapsed time in the largest unit that
   * fits in it, counting the whole units.
   */
  lemma TimeAgoLargestUnit(elapsed: int)
    requires elapsed >= 60
    ensures exists k ::
              (&& 0 <= k < |Intervals|
               && Intervals[k].seconds <= elapsed
               && (forall j :: 0 <= j < k ==> Intervals[j].seconds > elapsed)
               && TimeAgoText(elapsed) == Phrase(elapsed / Intervals[k].seconds, Intervals[k].unit))
  {
    var k := 0;
    while Intervals[k].seconds > elapsed
      invariant 0 <= k < |Intervals|
      invariant forall j :: 0 <= j < k ==> Intervals[j].seconds > elapsed
      decreases |Intervals| - k
    {
      k := k + 1;
    }
    DescribeFirstFit(Intervals, elapsed, k);
  }

  /** No unit name ends in 's', so a phrase ends in "s ago" exactly when its count is above one. */
  lemma PhrasePlural(count: nat, k: nat)
    requires count >= 1 && k < |Intervals|
    ensures var p := Phrase(count, Intervals[k].unit);
            |p| >= 5 && (p[|p| - 5..] == "s ago" <==> count > 1)
  {
    var u := Intervals[k].unit;
    var p := Phrase(count, u);
    assert u[|u| - 1] != 's';
    if count > 1 {
      assert p == NatToString(count) + " " + u + "s" + " ago";
      assert p[|p| - 5..] == "s ago";
    } else {
      assert p == (NatToString(count) + " " + u) + " ago";
      assert p[|p| - 5] == u[|u| - 1];
    }
  }

  // ---------------------------------------------------------------------------
  // hexToRgb
  // ---------------------------------------------------------------------------

  datatype Rgb = Rgb(r: nat, g: nat, b: nat)

  /** The value of two hex digits, as `parseInt(pair, 16)` reads them. */
  function PairValue(hi: char, lo: char): (v: nat)
    requires IsHexDigit(hi) && IsHexDigit(lo)
    ensures v < 256
  {
    16 * HexValue(hi) + HexValue(lo)
  }

  /**
   * `hexToRgb`: six hex digits in either case, optionally after a '#', give the three
   * channels; any other text gives nothing.
   */
  function HexToRgb(hex: string): (r: Option<Rgb>)
    ensures r.Some? <==> (|hex| == 6 && AllHex(hex)) || (|hex| == 7 && hex[0] == '#' && AllHex(hex[1..]))
    ensures r.Some? ==> r.value.r < 256 && r.value.g < 256 && r.value.b < 256
  {
    var d := if |hex| == 7 && hex[0] == '#' then hex[1..] else hex;
    if |d| == 6 && AllHex(d) then
      Some(Rgb(PairValue(d[0], d[1]), PairValue(d[2], d[3]), PairValue(d[4], d[5])))
    else None
  }

  /** The hex digit for a value below sixteen, in upper or lower case. */
  function HexChar(v: nat, upper: bool): (c: char)
    requires v < 16
    ensures IsHexDigit(c) && HexValue(c) == v
  {
    if v < 10 then ('0' as int + v) as char
    else if upper then ('A' as int + v - 10) as char
    else ('a' as int + v - 10) as char
  }

  /** A channel written as two hex digits. */
  function HexPair(v: nat, upper: bool): (s: string)
    requires v < 256
    ensures |s| == 2 && AllHex(s) && PairValue(s[0], s[1]) == v
  {
    [HexChar(v / 16, upper), HexChar(v % 16, upper)]
  }

  /** Writing a colour in hex, with or without '#', in either case, and parsing it gives the colour back. */
  lemma HexRoundTrip(c: Rgb, upper: bool, hash: bool)
    requires c.r < 256 && c.g < 256 && c.b < 256
    ensures HexToRgb((if hash then "#" else "") + HexPair(c.r, upper) + HexPair(c.g, upper) + HexPair(c.b, upper))
            == Some(c)
  {
    var d := HexPair(c.r, upper) + HexPair(c.g, upper) + HexPair(c.b, upper);
    var s := (if hash then "#" else "") + d;
    if hash {
      assert s[1..] == d;
    }
    assert d[0] == HexPair(c.r, upper)[0] && d[1] == HexPair(c.r, upper)[1];
    assert d[2] == HexPair(c.g, upper)[0] && d[3] == HexPair(c.g, upper)[1];
    assert d[4] == HexPair(c.b, upper)[0] && d[5] == HexPair(c.b, upper)[1];
  }

  /** Every configured candidate colour is six upper-case hex digits after a '#'. */
  lemma ConfiguredColoursParse()
    ensures forall c :: c in Config.Candidates ==> HexToRgb(c.color).Some?
  {
    forall c | c in Config.Candidates
      ensures HexToRgb(c.color).Some?
    {
      assert |c.color| == 7 && c.color[0] == '#';
      assert AllHex(c.color[1..]);
    }
  }

  /** The first candidate's colour, "#E74C3C", is red 231, green 76, blue 60. */
  lemma FirstColourChannels()
    ensures HexToRgb(Config.Candidates[0].color) == Some(Rgb(231, 76, 60))
  {
    var d := Config.Candidates[0].color[1..];
    assert d == "E74C3C";
    assert PairValue(d[0], d[1]) == 231;
    assert PairValue(d[2], d[3]) == 76;
    assert PairValue(d[4], d[5]) == 60;
  }

  // ---------------------------------------------------------------------------
  // isValidDiscordId
  // ---------------------------------------------------------------------------

  /** `isValidDiscordId`: seventeen to nineteen ASCII digits and nothing else. */
  predicate IsValidDiscordId(id: string) {
    17 <= |id| <= 19 && AllDigits(id)
  }

  /** The decimal text of a number is a valid id exactly when the number lies in [10^16, 10^19). */
  lemma DiscordIdRange(n: nat)
    ensures IsValidDiscordId(NatToString(n)) <==> Pow10(16) <= n < Pow10(19)
  {
    NatToStringLength(n, 16);
    NatToStringLength(n, 19);
  }

  // ---------------------------------------------------------------------------
  // getDeviceType
  // ---------------------------------------------------------------------------

  datatype Device = Mobile | Tablet | Desktop

  function DeviceRank(d: Device): nat {
    match d
    case Mobile => 0
    case Tablet => 1
    case Desktop => 2
  }

  /** `getDeviceType` for a window width. */
  function GetDeviceType(width: int): (d: Device)
  {
    if width < 768 then Mobile
    else if width < 1024 then Tablet
    else Desktop
  }

  /** A wider window never gets a smaller device class. */
  lemma DeviceTypeMonotone(w1: int, w2: int)
    requires w1 <= w2
    ensures DeviceRank(GetDeviceType(w1)) <= DeviceRank(GetDeviceType(w2))
  {
  }

  /** The three device classes cover the widths below 768, from 768 to 1023 and from 1024 on. */
  lemma DeviceTypeBands(width: int)
    ensures GetDeviceType(width) == Mobile <==> width < 768
    ensures GetDeviceType(width) == Tablet <==> 768 <= width < 1024
    ensures GetDeviceType(width) == Desktop <==> width >= 1024
  {
  }
}
