/** The time-slot utilities of `src/utils/index.ts`: zero-padded formatting, adding
    a step of minutes to an "HH:MM" string with a single carry into the hour, and
    generating the list of slots for a day. */
module TimeUtils {
  import opened Text

  const MinutesInHour: nat := 60
  const HoursInDay: nat := 24
  const MinutesInDay: nat := MinutesInHour * HoursInDay
  const Start: string := "00:00"

  /** An hour and a minute as `Number` reads them out of an "H:M" string. */
  datatype TimeValue = TimeValue(hours: nat, minutes: nat)

  function TotalMinutes(t: TimeValue): nat {
    t.hours * MinutesInHour + t.minutes
  }

  /** `toTimeFormat(t)` as a template literal renders it: numbers under 10 get a
      leading "0", the others are written as they are. */
  function ToTimeFormat(t: nat): string {
    if t >= 10 then NatToString(t) else "0" + NatToString(t)
  }

  /** `toTimeFormat(t)` is made of digits and reads back as `t`; it is two
      characters exactly when `t <= 99`, and starts with a padding "0" exactly
      when `t < 10`. */
  lemma ToTimeFormatDigits(t: nat)
    ensures var r := ToTimeFormat(t);
      && AllDigits(r) && DecimalValue(r) == t
      && (t <= 99 <==> |r| == 2)
      && (t < 10 <==> (|r| == 2 && r[0] == '0'))
      && ':' !in r
  {
    NatToStringDigits(t);
    DecimalValueLeadingZero(NatToString(t));
  }

  /** `${toTimeFormat(h)}:${toTimeFormat(m)}` */
  function Clock(h: nat, m: nat): string {
    ToTimeFormat(h) + ":" + ToTimeFormat(m)
  }

  /** A formatted time reads back, through `split(":")` and `Number`, as the
      hour and minute it was made from. */
  lemma ClockReadsBack(h: nat, m: nat)
    ensures IsTimeText(Clock(h, m)) && ParseTime(Clock(h, m)) == TimeValue(h, m)
  {
    var a, b := ToTimeFormat(h), ToTimeFormat(m);
    ToTimeFormatDigits(h);
    ToTimeFormatDigits(m);
    SplitAtFirstSeparator(a, b, ':');
    SplitWithoutSeparator(b, ':');
  }

  /** `time.split(":").map(Number)` yields two numbers: the first two pieces
      are decimal digit strings. */
  predicate IsTimeText(s: string) {
    var parts := Split(s, ':');
    |parts| >= 2 && AllDigits(parts[0]) && AllDigits(parts[1])
  }

  /** `const [h, m] = time.split(":").map(Number)` */
  function ParseTime(s: string): TimeValue
    requires IsTimeText(s)
  {
    var parts := Split(s, ':');
    TimeValue(DecimalValue(parts[0]), DecimalValue(parts[1]))
  }

  /** `s` is the zero-padded rendering of the time it denotes. */
  predicate Canonical(s: string) {
    IsTimeText(s) && s == Clock(ParseTime(s).hours, ParseTime(s).minutes)
  }

  /** The fixed start "00:00" is midnight, written canonically. */
  lemma StartIsMidnight()
    ensures Start == Clock(0, 0)
    ensures Canonical(Start) && ParseTime(Start) == TimeValue(0, 0)
  {
    assert ToTimeFormat(0) == "00";
    ClockReadsBack(0, 0);
  }

  /** `getDateFromHours(time)`: build a `Date` for today at the given hour and
      minute and format its hours and minutes. For an in-range hour and minute
      the `Date` gives them back unchanged. */
  function DateFromHours(time: string): string
    requires IsTimeText(time)
    requires ParseTime(time).hours < HoursInDay && ParseTime(time).minutes < MinutesInHour
  {
    var t := ParseTime(time);
    Clock(t.hours, t.minutes)
  }

  /** `getDateFromHours` normalises an in-range time: the result is five
      characters "HH:MM" that read back as the same hour and minute. */
  lemma DateFromHoursReadsBack(time: string)
    requires IsTimeText(time)
    requires ParseTime(time).hours < HoursInDay && ParseTime(time).minutes < MinutesInHour
    ensures var r := DateFromHours(time);
      Canonical(r) && ParseTime(r) == ParseTime(time) && |r| == 5 && r[2] == ':'
  {
    var t := ParseTime(time);
    ClockReadsBack(t.hours, t.minutes);
    ToTimeFormatDigits(t.hours);
    ToTimeFormatDigits(t.minutes);
  }

  /** The arithmetic of `addMinutes`: add `step` to the minute and, when that
      reaches 60, take 60 off and carry one into the hour. */
  function AddTime(step: nat, p: TimeValue): (q: TimeValue)
    ensures TotalMinutes(q) == TotalMinutes(p) + step
    ensures q.hours == p.hours + 1 <==> p.minutes + step >= MinutesInHour
    ensures p.hours <= q.hours <= p.hours + 1
    ensures p.minutes < MinutesInHour && step <= MinutesInHour ==> q.minutes < MinutesInHour
  {
    if p.minutes + step >= MinutesInHour then
      TimeValue(p.hours + 1, p.minutes + step - MinutesInHour)
    else
      TimeValue(p.hours, p.minutes + step)
  }

  /** `addMinutes(step, prevTime)`: read `prevTime` with `split(":")` and
      `Number`, add the step with a single carry, and format the result. */
  function AddMinutes(step: nat, prevTime: string): string
    requires IsTimeText(prevTime)
  {
    var q := AddTime(step, ParseTime(prevTime));
    Clock(q.hours, q.minutes)
  }

  /** The result of `addMinutes` reads back as a time exactly `step` minutes
      after `prevTime`, carried at most once and never reduced modulo 24. */
  lemma AddMinutesReadsBack(step: nat, prevTime: string)
    requires IsTimeText(prevTime)
    ensures var r := AddMinutes(step, prevTime);
      && Canonical(r)
      && ParseTime(r) == AddTime(step, ParseTime(prevTime))
      && TotalMinutes(ParseTime(r)) == TotalMinutes(ParseTime(prevTime)) + step
  {
    var q := AddTime(step, ParseTime(prevTime));
    ClockReadsBack(q.hours, q.minutes);
  }

  /** The time of the `i`-th entry of the time line for `step`: midnight, then
      each entry `step` minutes after the previous one. Its hour has been carried
      at most once per step, and for steps up to an hour its minute is in range. */
  function SlotTime(step: nat, i: nat): (t: TimeValue)
    ensures t.hours <= i
    ensures step <= MinutesInHour ==> t.minutes < MinutesInHour
    decreases i
  {
    if i == 0 then TimeValue(0, 0) else AddTime(step, SlotTime(step, i - 1))
  }

  /** Entry `i` lies exactly `i * step` minutes after midnight. */
  lemma {:induction false} SlotTimeTotal(step: nat, i: nat)
    ensures TotalMinutes(SlotTime(step, i)) == i * step
    decreases i
  {
    if i > 0 {
      SlotTimeTotal(step, i - 1);
      assert (i - 1) * step + step == i * step;
    }
  }

  /** The `i`-th entry of the time line for `step`, formatted. */
  function SlotAt(step: nat, i: nat): string {
    Clock(SlotTime(step, i).hours, SlotTime(step, i).minutes)
  }

  /** Each entry is the canonical rendering of its time. */
  lemma SlotAtReadsBack(step: nat, i: nat)
    ensures Canonical(SlotAt(step, i)) && ParseTime(SlotAt(step, i)) == SlotTime(step, i)
  {
    ClockReadsBack(SlotTime(step, i).hours, SlotTime(step, i).minutes);
  }

  /** The first entry is "00:00", which is also what `getDateFromHours("00:00")`
      gives back. */
  lemma FirstSlotIsStart(step: nat)
    ensures SlotAt(step, 0) == Start
    ensures IsTimeText(Start) && ParseTime(Start) == TimeValue(0, 0)
    ensures DateFromHours(Start) == Start
  {
    StartIsMidnight();
    ClockReadsBack(0, 0);
  }

  /** Each later entry is `addMinutes(step, previous entry)`, which is what the
      loop of `getTimeSlots` pushes. */
  lemma NextSlotIsAddMinutes(step: nat, i: nat, prevTime: string)
    requires 0 < i && prevTime == SlotAt(step, i - 1)
    ensures IsTimeText(prevTime) && AddMinutes(step, prevTime) == SlotAt(step, i)
  {
    SlotAtReadsBack(step, i - 1);
    assert ParseTime(prevTime) == SlotTime(step, i - 1);
    assert SlotTime(step, i) == AddTime(step, SlotTime(step, i - 1));
  }

  /** The number of rows `(60 / step) * 24`, read exactly: the `i >= 0` with
      `i < 1440 / step`, that is `i * step < 1440`. */
  function SlotCount(step: int): nat {
    if step > 0 then (MinutesInDay + step - 1) / step else 0
  }

  /** Integer division has one quotient and remainder. */
  lemma DivModUnique(n: nat, d: nat, q: nat, r: nat)
    requires 0 < d && r < d && n == q * d + r
    ensures n / d == q && n % d == r
  {
    var q0, r0 := n / d, n % d;
    assert n == q0 * d + r0;
    if q0 < q {
      MulMonotone(q0 + 1, q, d);
    } else if q < q0 {
      MulMonotone(q + 1, q0, d);
    }
  }

  lemma MulMonotone(a: nat, b: nat, d: nat)
    requires a <= b
    ensures a * d <= b * d
  {
    assert b * d == a * d + (b - a) * d;
  }

  /** The loop of `getTimeSlots` runs for exactly the `i` with `i * step < 1440`. */
  lemma SlotCountIsRowCount(step: int, i: nat)
    requires step > 0
    ensures i < SlotCount(step) <==> i * step < MinutesInDay
  {
    var c := SlotCount(step);
    var n := MinutesInDay + step - 1;
    assert n == c * step + n % step;
    if i < c {
      assert i * step <= (c - 1) * step;
    } else {
      assert c * step <= i * step;
    }
  }

  /** For a step that divides an hour the count is `(60 / step) * 24`. */
  lemma SlotCountOfDivisor(step: int)
    requires step > 0 && MinutesInHour % step == 0
    ensures SlotCount(step) == (MinutesInHour / step) * HoursInDay
  {
    var q := MinutesInHour / step;
    assert MinutesInHour == q * step;
    assert MinutesInDay + step - 1 == (q * HoursInDay) * step + (step - 1);
    DivModUnique(MinutesInDay + step - 1, step, q * HoursInDay, step - 1);
  }

  /** The steps 10 and 20 give 144 and 72 rows, the dropdown's step 5 gives
      288, and step 35, which does not divide the hour, gives 42. */
  lemma SlotCountExamples()
    ensures SlotCount(5) == 288 && SlotCount(10) == 144 && SlotCount(20) == 72
    ensures SlotCount(35) == 42
  {
  }

  /** For a step of at most an hour, slot `i` is the zero-padded quotient and
      remainder of `i * step` by 60. */
  lemma SlotAtClosedForm(step: nat, i: nat)
    requires 0 < step <= MinutesInHour
    ensures SlotAt(step, i) == Clock((i * step) / MinutesInHour, (i * step) % MinutesInHour)
  {
    var t := SlotTime(step, i);
    SlotTimeTotal(step, i);
    DivModUnique(i * step, MinutesInHour, t.hours, t.minutes);
  }

  /** Every slot the loop produces is five characters "HH:MM" with an hour of at
      most 23 and a minute of at most 59, so no wrap-around is ever needed. */
  lemma SlotInRange(step: nat, i: nat)
    requires 0 < step <= MinutesInHour && i * step < MinutesInDay
    ensures IsTimeText(SlotAt(step, i))
    ensures var s, t := SlotAt(step, i), ParseTime(SlotAt(step, i));
      && |s| == 5 && s[2] == ':'
      && IsDigit(s[0]) && IsDigit(s[1]) && IsDigit(s[3]) && IsDigit(s[4])
      && t.hours < HoursInDay && t.minutes < MinutesInHour
  {
    SlotAtReadsBack(step, i);
    SlotTimeTotal(step, i);
    var t := SlotTime(step, i);
    ToTimeFormatDigits(t.hours);
    ToTimeFormatDigits(t.minutes);
  }

  /** Consecutive slots, read back, are exactly `step` minutes apart. */
  lemma SlotsConsecutive(step: nat, i: nat)
    ensures IsTimeText(SlotAt(step, i)) && IsTimeText(SlotAt(step, i + 1))
    ensures TotalMinutes(ParseTime(SlotAt(step, i + 1))) == TotalMinutes(ParseTime(SlotAt(step, i))) + step
  {
    SlotAtReadsBack(step, i);
    SlotAtReadsBack(step, i + 1);
  }

  /** For a positive step the slots are strictly increasing in time, so no slot
      repeats. */
  lemma SlotsIncreasing(step: nat, i: nat, j: nat)
    requires 0 < step && i < j
    ensures IsTimeText(SlotAt(step, i)) && IsTimeText(SlotAt(step, j))
    ensures TotalMinutes(ParseTime(SlotAt(step, i))) < TotalMinutes(ParseTime(SlotAt(step, j)))
    ensures SlotAt(step, i) != SlotAt(step, j)
  {
    SlotAtReadsBack(step, i);
    SlotAtReadsBack(step, j);
    SlotTimeTotal(step, i);
    SlotTimeTotal(step, j);
    MulMonotone(i + 1, j, step);
  }

  /** With a step over an hour the single carry is not enough: for 90 the third
      slot is "02:60". */
  lemma LargeStepOverflowsMinutes()
    ensures SlotAt(90, 2) == Clock(2, 60)
  {
    assert SlotTime(90, 1) == TimeValue(1, 30);
    assert SlotTime(90, 2) == TimeValue(2, 60);
  }

  /** The first `n` entries of the time line for `step`, in order. */
  function TimeLine(step: nat, n: nat): (r: seq<string>)
    ensures |r| == n
    decreases n
  {
    if n == 0 then [] else TimeLine(step, n - 1) + [SlotAt(step, n - 1)]
  }

  /** Entry `k` of the time line is slot `k`, however long the line is. */
  lemma {:induction false} TimeLineAt(step: nat, n: nat, k: nat)
    requires k < n
    ensures TimeLine(step, n)[k] == SlotAt(step, k)
    decreases n
  {
    var init := TimeLine(step, n - 1);
    assert TimeLine(step, n) == init + [SlotAt(step, n - 1)];
    if k < n - 1 {
      TimeLineAt(step, n - 1, k);
      assert TimeLine(step, n)[k] == init[k];
    }
  }

  /** Every position of the time line holds the entry of that index. */
  lemma TimeLineIsSlots(step: nat, n: nat)
    ensures forall k :: 0 <= k < n ==> TimeLine(step, n)[k] == SlotAt(step, k)
  {
    forall k | 0 <= k < n ensures TimeLine(step, n)[k] == SlotAt(step, k) {
      TimeLineAt(step, n, k);
    }
  }

  /** A time line of positive length starts at "00:00". */
  lemma TimeLineStartsAtMidnight(step: nat, n: nat)
    requires 0 < n
    ensures TimeLine(step, n)[0] == Start
  {
    TimeLineAt(step, n, 0);
    FirstSlotIsStart(step);
  }

  /** The body of the loop of `getTimeSlots`: the first turn formats the start
      with `getDateFromHours`, every later one adds the step to the previous
      time. Either way the result is entry `i` of the time line. */
  method NextTime(step: nat, i: nat, prevTime: string) returns (time: string)
    requires 0 < i ==> prevTime == SlotAt(step, i - 1)
    ensures time == SlotAt(step, i)
  {
    if i == 0 {
      FirstSlotIsStart(step);
      time := DateFromHours(Start);
    } else {
      NextSlotIsAddMinutes(step, i, prevTime);
      time := AddMinutes(step, prevTime);
    }
  }

  /** `getTimeSlots(step)`: the loop pushes `getDateFromHours("00:00")` and then
      `addMinutes(step, prevTime)` while `i < (60 / step) * 24`, a bound read
      exactly as `SlotCount(step)`. The result is the time line of that length;
      a negative step yields no rows. A zero step makes the bound infinite and
      the loop never ends, so it is excluded. */
  method GetTimeSlots(step: int) returns (timeLine: seq<string>)
    requires step != 0
    ensures |timeLine| == SlotCount(step)
    ensures step > 0 ==> timeLine == TimeLine(step, SlotCount(step))
    ensures step < 0 ==> timeLine == []
    ensures forall k :: 0 <= k < |timeLine| ==> timeLine[k] == SlotAt(step, k)
  {
    var rowsNumber := SlotCount(step);
    var prevTime := Start;
    timeLine := [];
    var i: nat := 0;
    while i < rowsNumber
      invariant i <= rowsNumber
      invariant 0 < i ==> 0 < step && timeLine == TimeLine(step, i) && prevTime == SlotAt(step, i - 1)
      invariant i == 0 ==> timeLine == []
    {
      var time := NextTime(step, i, prevTime);
      timeLine := timeLine + [time];
      prevTime := time;
      i := i + 1;
    }
    if step > 0 {
      TimeLineIsSlots(step, rowsNumber);
    }
  }
}
