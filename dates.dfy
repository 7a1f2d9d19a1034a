/**
 * The date helpers: the human-readable label of a `YYYY-MM-DD` string and
 * the whole days elapsed since the most recent date of a record. Both files
 * of the source carry an identical copy of each; each is defined once here.
 *
 * The clock, the host's timezone offset and the parsing of a date string
 * into epoch milliseconds are parameters.
 */
module Dates {
  import opened Wrappers
  import opened JsStrings
  import opened Entries

  const MonthNames: seq<string> := [
    "January", "February", "March", "April", "May", "June",
    "July", "August", "September", "October", "November", "December"
  ]

  /** A part of the split date after `Number`, or `undefined` when the part is missing. */
  datatype JsValue = Num(n: nat) | NaN | Undefined

  /**
   * `Number(part)` on the decimal forms: surrounding whitespace is ignored,
   * an empty remainder is 0, a run of digits is its value, anything else NaN.
   */
  function ToNumber(part: string): JsValue {
    var t := Trim(part);
    if AllDigits(t) then Num(DigitsValue(t)) else NaN
  }

  /**
   * `Number` never yields undefined; it yields a number exactly when the
   * trimmed part is a (possibly empty) run of digits, and 0 for a blank part.
   */
  lemma NumberOfPart(part: string)
    ensures ToNumber(part) != Undefined
    ensures ToNumber(part).Num? <==> AllDigits(Trim(part))
    ensures AllSpace(part) ==> ToNumber(part) == Num(0)
  {
    TrimEmptyIffBlank(part);
  }

  /** Element i of `parts.map(Number)` as destructuring reads it. */
  function PartAt(parts: seq<string>, i: nat): JsValue {
    if i < |parts| then ToNumber(parts[i]) else Undefined
  }

  /** A value inside a template literal. */
  function Render(v: JsValue): string {
    match v
    case Num(n) => NatToString(n)
    case NaN => "NaN"
    case Undefined => "undefined"
  }

  /** `months[month - 1]` inside a template literal. */
  function MonthLabel(month: JsValue): (r: string)
    ensures month.Num? && 1 <= month.n <= 12 ==> r == MonthNames[month.n - 1]
    ensures !(month.Num? && 1 <= month.n <= 12) ==> r == "undefined"
  {
    match month
    case Num(m) => if 1 <= m <= 12 then MonthNames[m - 1] else "undefined"
    case _ => "undefined"
  }

  /** The template literal of the label, over the parts of the split date. */
  function LabelOfParts(parts: seq<string>): string {
    MonthLabel(PartAt(parts, 1)) + " " + Render(PartAt(parts, 2)) + ", " + Render(PartAt(parts, 0))
  }

  /**
   * `getNiceDateLabelFromDateString(dateString)`, defined identically in
   * `src/lib/utils/entries.ts:25-41` and `src/lib/utils/dates.ts:14-31`.
   */
  function NiceLabel(dateString: string): string {
    LabelOfParts(Split(dateString, '-'))
  }

  /** A part that converts to a number prints as that number's decimal form. */
  lemma RenderedPart(parts: seq<string>, i: nat, v: nat)
    requires i < |parts| && ToNumber(parts[i]) == Num(v)
    ensures Render(PartAt(parts, i)) == NatToString(v)
  {
  }

  /** A month part converting to 1..12 prints as that month's name. */
  lemma MonthPart(parts: seq<string>, m: nat)
    requires 1 < |parts| && ToNumber(parts[1]) == Num(m) && 1 <= m <= 12
    ensures MonthLabel(PartAt(parts, 1)) == MonthNames[m - 1]
  {
  }

  /** Three parts converting to a year, a month in 1..12 and a day give "<Month> <day>, <year>". */
  lemma LabelOfNumbers(year: string, month: string, day: string, y: nat, m: nat, d: nat)
    requires ToNumber(year) == Num(y) && ToNumber(month) == Num(m) && ToNumber(day) == Num(d)
    requires 1 <= m <= 12
    ensures LabelOfParts([year, month, day]) == MonthNames[m - 1] + " " + NatToString(d) + ", " + NatToString(y)
  {
    MonthPart([year, month, day], m);
    RenderedPart([year, month, day], 2, d);
    RenderedPart([year, month, day], 0, y);
  }

  /**
   * For three runs of digits joined by dashes with the month in 1..12, the
   * label is the month's name, the day and the year, each number printed
   * without leading zeros.
   */
  lemma NiceLabelOfDigits(year: string, month: string, day: string)
    requires AllDigits(year) && AllDigits(month) && AllDigits(day)
    requires 1 <= DigitsValue(month) <= 12
    ensures NiceLabel(year + "-" + month + "-" + day)
         == MonthNames[DigitsValue(month) - 1] + " " + NatToString(DigitsValue(day)) + ", " + NatToString(DigitsValue(year))
  {
    LabelAfterSplit(year + "-" + month + "-" + day, [year, month, day]);
    LabelOfDigitParts(year, month, day);
  }

  /** The label of three digit-run parts with the month in 1..12. */
  lemma LabelOfDigitParts(year: string, month: string, day: string)
    requires AllDigits(year) && AllDigits(month) && AllDigits(day)
    requires 1 <= DigitsValue(month) <= 12
    ensures LabelOfParts([year, month, day])
         == MonthNames[DigitsValue(month) - 1] + " " + NatToString(DigitsValue(day)) + ", " + NatToString(DigitsValue(year))
  {
    LabelOfDigitValues(year, month, day, DigitsValue(year), DigitsValue(month), DigitsValue(day));
  }

  /** LabelOfDigitParts with the three values named. */
  lemma LabelOfDigitValues(year: string, month: string, day: string, y: nat, m: nat, d: nat)
    requires AllDigits(year) && AllDigits(month) && AllDigits(day)
    requires y == DigitsValue(year) && m == DigitsValue(month) && d == DigitsValue(day)
    requires 1 <= m <= 12
    ensures LabelOfParts([year, month, day]) == MonthNames[m - 1] + " " + NatToString(d) + ", " + NatToString(y)
  {
    NumberOfDigits(year);
    NumberOfDigits(month);
    NumberOfDigits(day);
    LabelOfNumbers(year, month, day, y, m, d);
  }

  /** The label of three digit runs joined by dashes is the label of the three runs. */
  lemma LabelAfterSplit(s: string, parts: seq<string>)
    requires |parts| == 3 && AllDigits(parts[0]) && AllDigits(parts[1]) && AllDigits(parts[2])
    requires s == parts[0] + "-" + parts[1] + "-" + parts[2]
    ensures NiceLabel(s) == LabelOfParts(parts)
  {
    SplitOfDigits(parts[0], parts[1], parts[2]);
    assert parts == [parts[0], parts[1], parts[2]];
  }

  /** A run of digits converts to its value. */
  lemma NumberOfDigits(s: string)
    requires AllDigits(s)
    ensures ToNumber(s) == Num(DigitsValue(s))
  {
    TrimDigits(s);
  }

  /** Three runs of digits joined by dashes split back into the three runs. */
  lemma SplitOfDigits(year: string, month: string, day: string)
    requires AllDigits(year) && AllDigits(month) && AllDigits(day)
    ensures Split(year + "-" + month + "-" + day, '-') == [year, month, day]
  {
    var parts := [year, month, day];
    NoDashInDigits(year);
    NoDashInDigits(month);
    NoDashInDigits(day);
    assert parts[1..] == [month, day] && parts[1..][1..] == [day];
    assert Join([month, day], '-') == month + "-" + day;
    assert Join(parts, '-') == year + "-" + month + "-" + day;
    SplitJoin(parts, '-');
  }

  /** A run of digits holds no dash. */
  lemma NoDashInDigits(s: string)
    requires AllDigits(s)
    ensures '-' !in s
  {
    forall i | 0 <= i < |s| ensures s[i] != '-' {
      assert IsDigit(s[i]);
    }
  }

  /** A run of zeros, possibly empty. */
  predicate AllZeros(z: string) {
    forall k :: 0 <= k < |z| ==> z[k] == '0'
  }

  /** A digit run as `String` prints a number: non-empty, no leading zero unless it is "0". */
  predicate Canonical(s: string) {
    AllDigits(s) && s != [] && (s[0] != '0' || |s| == 1)
  }

  /** Printing the value of a zero-padded digit run gives the run without its padding. */
  lemma NiceLabelDropsLeadingZeros(zeros: string, digits: string)
    requires AllZeros(zeros) && Canonical(digits)
    ensures AllDigits(zeros + digits) && DigitsValue(zeros + digits) == DigitsValue(digits)
    ensures NatToString(DigitsValue(zeros + digits)) == digits
  {
    LeadingZerosIgnored(zeros, digits);
    NatToStringOfCanonical(digits);
  }

  /**
   * `YYYY-MM-DD` with zero-padded month and day: the label shows the month's
   * name, then the day and the year as written without their padding.
   */
  lemma NiceLabelOfPadded(year: string, monthZeros: string, month: string, dayZeros: string, day: string)
    requires Canonical(year) && Canonical(month) && Canonical(day)
    requires AllZeros(monthZeros) && AllZeros(dayZeros)
    requires 1 <= DigitsValue(month) <= 12
    ensures NiceLabel(year + "-" + (monthZeros + month) + "-" + (dayZeros + day))
         == MonthNames[DigitsValue(month) - 1] + " " + day + ", " + year
  {
    NiceLabelDropsLeadingZeros(monthZeros, month);
    NiceLabelDropsLeadingZeros(dayZeros, day);
    NatToStringOfCanonical(year);
    NiceLabelOfPrinted(year, monthZeros + month, dayZeros + day, DigitsValue(month), day);
  }

  /** NiceLabelOfDigits with the month's value and the printed day named. */
  lemma NiceLabelOfPrinted(year: string, month: string, day: string, m: nat, ds: string)
    requires AllDigits(year) && AllDigits(month) && AllDigits(day)
    requires DigitsValue(month) == m && 1 <= m <= 12
    requires NatToString(DigitsValue(year)) == year && NatToString(DigitsValue(day)) == ds
    ensures NiceLabel(year + "-" + month + "-" + day) == MonthNames[m - 1] + " " + ds + ", " + year
  {
    NiceLabelOfDigits(year, month, day);
  }

  /** A month part that is a number outside 1..12, or not a number, prints as undefined. */
  lemma MonthPartOutOfRange(parts: seq<string>)
    requires 1 < |parts|
    requires !(ToNumber(parts[1]).Num? && 1 <= ToNumber(parts[1]).n <= 12)
    ensures MonthLabel(PartAt(parts, 1)) == "undefined"
  {
  }

  /**
   * No range check on the month: three runs of digits whose month is outside
   * 1..12 print as "undefined <day>, <year>".
   */
  lemma NiceLabelMonthOutOfRange(year: string, month: string, day: string)
    requires AllDigits(year) && AllDigits(month) && AllDigits(day)
    requires !(1 <= DigitsValue(month) <= 12)
    ensures NiceLabel(year + "-" + month + "-" + day)
         == "undefined" + " " + NatToString(DigitsValue(day)) + ", " + NatToString(DigitsValue(year))
  {
    LabelAfterSplit(year + "-" + month + "-" + day, [year, month, day]);
    LabelOfDigitPartsOutOfRange(year, month, day);
  }

  /** The label of three digit-run parts with the month outside 1..12. */
  lemma LabelOfDigitPartsOutOfRange(year: string, month: string, day: string)
    requires AllDigits(year) && AllDigits(month) && AllDigits(day)
    requires !(1 <= DigitsValue(month) <= 12)
    ensures LabelOfParts([year, month, day])
         == "undefined" + " " + NatToString(DigitsValue(day)) + ", " + NatToString(DigitsValue(year))
  {
    NumberOfDigits(month);
    LabelOfNumbersOutOfRange(year, month, day, DigitsValue(year), DigitsValue(day));
  }

  /**
   * A year and a day that convert to numbers, with a month part that is not
   * a number in 1..12, give "undefined <day>, <year>".
   */
  lemma LabelOfNumbersOutOfRange(year: string, month: string, day: string, y: nat, d: nat)
    requires AllDigits(year) && AllDigits(day)
    requires y == DigitsValue(year) && d == DigitsValue(day)
    requires !(ToNumber(month).Num? && 1 <= ToNumber(month).n <= 12)
    ensures LabelOfParts([year, month, day]) == "undefined" + " " + NatToString(d) + ", " + NatToString(y)
  {
    var parts := [year, month, day];
    NumberOfDigits(year);
    NumberOfDigits(day);
    MonthPartOutOfRange(parts);
    RenderedPart(parts, 2, d);
    RenderedPart(parts, 0, y);
  }

  /** A string without a dash is the year alone: month and day print as undefined. */
  lemma NiceLabelMissingParts(year: string)
    requires AllDigits(year)
    ensures NiceLabel(year) == "undefined" + " " + "undefined" + ", " + NatToString(DigitsValue(year))
  {
    NoDashInDigits(year);
    SplitWithoutDash(year);
    LabelOfYearOnly(year);
  }

  /** A string without a dash splits into itself alone. */
  lemma SplitWithoutDash(s: string)
    requires '-' !in s
    ensures Split(s, '-') == [s]
  {
    assert Join([s], '-') == s;
    SplitJoin([s], '-');
  }

  /** The label of a single digit-run part. */
  lemma LabelOfYearOnly(year: string)
    requires AllDigits(year)
    ensures LabelOfParts([year]) == "undefined" + " " + "undefined" + ", " + NatToString(DigitsValue(year))
  {
    LabelOfYearValue(year, DigitsValue(year));
  }

  /** LabelOfYearOnly with the year's value named. */
  lemma LabelOfYearValue(year: string, y: nat)
    requires AllDigits(year) && y == DigitsValue(year)
    ensures LabelOfParts([year]) == "undefined" + " " + "undefined" + ", " + NatToString(y)
  {
    NumberOfDigits(year);
    RenderedPart([year], 0, y);
  }

  /** A part that is not a number prints as NaN. */
  lemma NonNumericPart(parts: seq<string>, i: nat)
    requires i < |parts| && !AllDigits(Trim(parts[i]))
    ensures Render(PartAt(parts, i)) == "NaN"
  {
  }

  // ------------------------------------------------------------------
  // days since the most recent date

  const MsPerDay: nat := 1000 * 60 * 60 * 24

  /** `dates.map(dateObj => Object.keys(dateObj)[0])`. */
  function FirstKeys(dates: seq<DateEntry>): (keys: seq<string>)
    ensures |keys| == |dates|
    ensures forall i :: 0 <= i < |dates| ==> keys[i] == dates[i].key
  {
    if dates == [] then [] else [dates[0].key] + FirstKeys(dates[1..])
  }

  /** `keys.sort().reverse()[0]`: the greatest key under string order. */
  function MaxKey(keys: seq<string>): (m: string)
    requires |keys| > 0
    ensures m in keys
    ensures forall k :: k in keys ==> AtMost(k, m)
  {
    if |keys| == 1 then keys[0]
    else
      var rest := MaxKey(keys[1..]);
      BelowTotal(rest, keys[0]);
      assert keys == [keys[0]] + keys[1..];
      if Below(rest, keys[0]) then
        assert forall k :: k in keys[1..] ==> AtMost(k, keys[0]) by {
          forall k | k in keys[1..] ensures AtMost(k, keys[0]) { AtMostTransitive(k, rest, keys[0]); }
        }
        keys[0]
      else rest
  }

  /** The maximum depends only on which keys occur, not on their order or repetition. */
  lemma MaxKeyOrderFree(a: seq<string>, b: seq<string>)
    requires |a| > 0 && |b| > 0
    requires forall k :: k in a <==> k in b
    ensures MaxKey(a) == MaxKey(b)
  {
    AtMostAntisymmetric(MaxKey(a), MaxKey(b));
  }

  /** The reference date: the greatest first key of a non-empty list. */
  function MostRecentKey(dates: seq<DateEntry>): (k: string)
    requires |dates| > 0
    ensures exists i :: 0 <= i < |dates| && dates[i].key == k
    ensures forall i :: 0 <= i < |dates| ==> AtMost(dates[i].key, k)
  {
    var keys := FirstKeys(dates);
    var m := MaxKey(keys);
    assert forall i :: 0 <= i < |dates| ==> keys[i] in keys;
    m
  }

  function Abs(x: int): nat { if x < 0 then -x else x }

  /** The number `calculateDays` returns: whole days, or NaN when the date does not parse. */
  datatype DayCount = Days(n: nat) | NotANumber

  /**
   * `calculateDays(dates)` (`src/lib/utils/entries.ts:82-92`) and its copy
   * `calculateDaysSinceToday(dates)` (`src/lib/utils/dates.ts:33-43`), with the clock
   * reading `nowMs`, the module's `timezoneOffset` as `offsetMs` and
   * `new Date(key).getTime()` as `epochOf(key)` (None for an invalid date).
   */
  function DaysSince(dates: seq<DateEntry>, nowMs: int, epochOf: string -> Option<int>, offsetMs: int): (r: DayCount)
    ensures |dates| == 0 ==> r == Days(0)
    ensures |dates| > 0 ==> (r.NotANumber? <==> epochOf(MostRecentKey(dates)).None?)
    ensures |dates| > 0 && r.Days? ==>
      var diff := Abs(nowMs - epochOf(MostRecentKey(dates)).value - offsetMs);
      r.n * MsPerDay <= diff < (r.n + 1) * MsPerDay
  {
    if |dates| == 0 then Days(0)
    else
      match epochOf(MostRecentKey(dates))
      case None => NotANumber
      case Some(t) => Days(Abs(nowMs - t - offsetMs) / MsPerDay)
  }

  /** Two sequences with the same elements are both empty or both non-empty. */
  lemma SameElementsSameEmptiness<T>(a: seq<T>, b: seq<T>)
    requires forall x :: x in a <==> x in b
    ensures |a| > 0 <==> |b| > 0
  {
    if |a| > 0 { assert a[0] in b; }
    if |b| > 0 { assert b[0] in a; }
  }

  /** Reordering the dates, or repeating one, does not change the day count. */
  lemma DaysSinceOrderFree(a: seq<DateEntry>, b: seq<DateEntry>, nowMs: int,
                           epochOf: string -> Option<int>, offsetMs: int)
    requires forall x :: x in a <==> x in b
    ensures DaysSince(a, nowMs, epochOf, offsetMs) == DaysSince(b, nowMs, epochOf, offsetMs)
  {
    SameElementsSameEmptiness(a, b);
    if |a| > 0 {
      var ka, kb := FirstKeys(a), FirstKeys(b);
      forall k ensures k in ka <==> k in kb {
        if k in ka {
          var i :| 0 <= i < |ka| && ka[i] == k;
          assert a[i] in b;
          var j :| 0 <= j < |b| && b[j] == a[i];
          assert kb[j] == k;
        }
        if k in kb {
          var j :| 0 <= j < |kb| && kb[j] == k;
          assert b[j] in a;
          var i :| 0 <= i < |a| && a[i] == b[j];
          assert ka[i] == k;
        }
      }
      MaxKeyOrderFree(ka, kb);
    }
  }
}
