/** The dropdown: two columns listing the distinct hour and minute parts of the
    day's time slots, the open/select/dismiss state of the picker, and the text
    a read-only time field displays. */
module Picker {
  import opened Shared
  import opened Text
  import opened TimeUtils

  /** `unit === "hours" ? 0 : 1`: which `:`-separated part a column lists. */
  function Pos(unit: Unit): nat {
    if unit == Hours then 0 else 1
  }

  /** `item.split(":")[pos]`, `undefined` when there is no such part. */
  function Component(item: string, pos: nat): Option<string> {
    var parts := Split(item, ':');
    if pos < |parts| then Some(parts[pos]) else None
  }

  /** `list.map((item) => item.split(":")[pos])` */
  function Components(list: seq<string>, pos: nat): seq<Option<string>> {
    seq(|list|, k requires 0 <= k < |list| => Component(list[k], pos))
  }

  predicate NoDuplicates<T(==)>(xs: seq<T>) {
    forall i, j :: 0 <= i < j < |xs| ==> xs[i] != xs[j]
  }

  /** The position where `x` first occurs in `xs`. */
  function FirstIndex<T(==)>(xs: seq<T>, x: T): (k: nat)
    requires x in xs
    ensures k < |xs| && xs[k] == x && x !in xs[..k]
    decreases |xs|
  {
    if xs[0] == x then 0
    else
      var k := FirstIndex(xs[1..], x);
      assert xs[..k + 1] == [xs[0]] + xs[1..][..k];
      k + 1
  }

  /** Any position holding `x` with no `x` before it is the first one. */
  lemma FirstIndexUnique<T>(xs: seq<T>, x: T, k: nat)
    requires k < |xs| && xs[k] == x && x !in xs[..k]
    ensures FirstIndex(xs, x) == k
  {
    var f := FirstIndex(xs, x);
  }

  /** `[...new Set(xs)]`: each value once, in the order of first occurrence. */
  function Distinct<T(==,!new)>(xs: seq<T>): seq<T>
    decreases |xs|
  {
    if xs == [] then []
    else
      var before := Distinct(xs[..|xs| - 1]);
      if xs[|xs| - 1] in before then before else before + [xs[|xs| - 1]]
  }

  /** `Distinct(xs)` has no duplicates and holds exactly the values of `xs`. */
  lemma {:induction false} DistinctIsSetOf<T(!new)>(xs: seq<T>)
    ensures NoDuplicates(Distinct(xs))
    ensures forall x :: x in Distinct(xs) <==> x in xs
    decreases |xs|
  {
    if xs != [] {
      var init := xs[..|xs| - 1];
      DistinctIsSetOf(init);
      assert xs == init + [xs[|xs| - 1]];
    }
  }

  /** The values of `Distinct(xs)` are listed by the position of their first
      occurrence in `xs`. */
  lemma {:induction false} DistinctKeepsFirstOccurrenceOrder<T(!new)>(xs: seq<T>)
    ensures forall x :: x in Distinct(xs) ==> x in xs
    ensures forall i, j :: 0 <= i < j < |Distinct(xs)| ==>
      FirstIndex(xs, Distinct(xs)[i]) < FirstIndex(xs, Distinct(xs)[j])
    decreases |xs|
  {
    if xs != [] {
      var n := |xs| - 1;
      var init := xs[..n];
      var before := Distinct(init);
      DistinctKeepsFirstOccurrenceOrder(init);
      assert xs == init + [xs[n]];
      forall x | x in init
        ensures FirstIndex(xs, x) == FirstIndex(init, x) < n
      {
        var k := FirstIndex(init, x);
        assert xs[..k] == init[..k];
        FirstIndexUnique(xs, x, k);
      }
      if xs[n] !in before {
        assert xs[..n] == init;
        DistinctIsSetOf(init);
        FirstIndexUnique(xs, xs[n], n);
        var r := before + [xs[n]];
        forall i, j | 0 <= i < j < |r|
          ensures FirstIndex(xs, r[i]) < FirstIndex(xs, r[j])
        {
          assert r[i] == before[i] && r[i] in init;
          if j < |before| {
            assert r[j] == before[j] && r[j] in init;
          }
        }
      } else {
        forall i, j | 0 <= i < j < |before|
          ensures FirstIndex(xs, before[i]) < FirstIndex(xs, before[j])
        {
          assert before[i] in init && before[j] in init;
        }
      }
    }
  }

  /** `rows` of a `TimeLine` column: the distinct `pos` parts of the list items. */
  function TimeLineRows(list: seq<string>, unit: Unit): seq<Option<string>> {
    Distinct(Components(list, Pos(unit)))
  }

  /** A column lists every `pos` part of the items exactly once, nothing else,
      in the order in which the parts first appear in the list. */
  lemma TimeLineRowsAreDistinctParts(list: seq<string>, unit: Unit)
    ensures forall r :: r in TimeLineRows(list, unit) ==> r in Components(list, Pos(unit))
    ensures var rows := TimeLineRows(list, unit);
      && NoDuplicates(rows)
      && (forall r :: r in rows <==>
            exists k :: 0 <= k < |list| && Component(list[k], Pos(unit)) == r)
      && (forall i, j :: 0 <= i < j < |rows| ==>
            FirstIndex(Components(list, Pos(unit)), rows[i])
            < FirstIndex(Components(list, Pos(unit)), rows[j]))
  {
    var parts := Components(list, Pos(unit));
    DistinctKeepsFirstOccurrenceOrder(parts);
    DistinctIsSetOf(parts);
    forall r
      ensures r in parts <==> exists k :: 0 <= k < |list| && Component(list[k], Pos(unit)) == r
    {
      if r in parts {
        var k :| 0 <= k < |parts| && parts[k] == r;
        assert Component(list[k], Pos(unit)) == r;
      }
      if exists k :: 0 <= k < |list| && Component(list[k], Pos(unit)) == r {
        var k :| 0 <= k < |list| && Component(list[k], Pos(unit)) == r;
        assert parts[k] == r;
      }
    }
  }

  /** The parts of a rendered time `HH:MM` are the two zero-padded numbers. */
  lemma ClockComponents(h: nat, m: nat)
    ensures Component(Clock(h, m), 0) == Some(ToTimeFormat(h))
    ensures Component(Clock(h, m), 1) == Some(ToTimeFormat(m))
  {
    ToTimeFormatDigits(h);
    ToTimeFormatDigits(m);
    SplitWithoutSeparator(ToTimeFormat(m), ':');
    SplitAtFirstSeparator(ToTimeFormat(h), ToTimeFormat(m), ':');
  }

  /** The slots of a day, as `getTimeSlots(step)` returns them. */
  predicate IsTimeLine(list: seq<string>, step: nat) {
    && |list| == SlotCount(step)
    && forall k :: 0 <= k < |list| ==> list[k] == SlotAt(step, k)
  }

  /** For a step of at most an hour, slot `k` shows hour `k*step/60` and
      minute `k*step%60`, and its hour is below 24. */
  lemma SlotParts(list: seq<string>, step: nat, k: nat)
    requires 0 < step <= MinutesInHour && IsTimeLine(list, step) && k < |list|
    ensures (k * step) / MinutesInHour < HoursInDay
    ensures Component(list[k], 0) == Some(ToTimeFormat((k * step) / MinutesInHour))
    ensures Component(list[k], 1) == Some(ToTimeFormat((k * step) % MinutesInHour))
  {
    SlotCountIsRowCount(step, k);
    SlotAtClosedForm(step, k);
    ClockComponents((k * step) / MinutesInHour, (k * step) % MinutesInHour);
  }

  /** A multiple of a divisor of 60 stays one after reduction mod 60. */
  lemma MinuteOfMultiple(k: nat, step: nat)
    requires 0 < step && MinutesInHour % step == 0
    ensures ((k * step) % MinutesInHour) % step == 0
  {
    var c := MinutesInHour / step;
    var q := (k * step) / MinutesInHour;
    var rem := (k * step) % MinutesInHour;
    assert MinutesInHour == c * step;
    assert k * step == q * (c * step) + rem;
    assert q * (c * step) == (q * c) * step;
    assert rem == (k - q * c) * step;
    DivModUnique(rem, step, k - q * c, 0);
  }

  /** A slot's hour part is one of 00 to 23. */
  lemma HourPartOfSlot(list: seq<string>, step: nat, k: nat)
    requires 0 < step <= MinutesInHour && IsTimeLine(list, step) && k < |list|
    ensures exists h :: 0 <= h < HoursInDay && Components(list, 0)[k] == Some(ToTimeFormat(h))
  {
    SlotParts(list, step, k);
    var h := (k * step) / MinutesInHour;
    assert Components(list, 0)[k] == Some(ToTimeFormat(h));
  }

  /** A slot's minute part, for a step dividing the hour, is a multiple of the
      step below 60. */
  lemma MinutePartOfSlot(list: seq<string>, step: nat, k: nat)
    requires 0 < step <= MinutesInHour && MinutesInHour % step == 0
    requires IsTimeLine(list, step) && k < |list|
    ensures exists m ::
      0 <= m < MinutesInHour && m % step == 0 && Components(list, 1)[k] == Some(ToTimeFormat(m))
  {
    SlotParts(list, step, k);
    MinuteOfMultiple(k, step);
    var m := (k * step) % MinutesInHour;
    assert Components(list, 1)[k] == Some(ToTimeFormat(m));
  }

  /** The slot `h * (60/step)` starts hour `h`. */
  lemma HourStartSlot(step: nat, h: nat) returns (k: nat)
    requires 0 < step && MinutesInHour % step == 0
    ensures k * step == h * MinutesInHour
  {
    var c := MinutesInHour / step;
    k := h * c;
    assert c * step == MinutesInHour;
    assert k * step == h * (c * step);
  }

  /** Every hour 00 to 23 is the hour part of some slot. */
  lemma SlotShowingHour(list: seq<string>, step: nat, h: nat)
    requires 0 < step <= MinutesInHour && MinutesInHour % step == 0 && IsTimeLine(list, step)
    requires h < HoursInDay
    ensures Some(ToTimeFormat(h)) in Components(list, 0)
  {
    var k := HourStartSlot(step, h);
    SlotCountIsRowCount(step, k);
    SlotParts(list, step, k);
    assert Components(list, 0)[k] == Some(ToTimeFormat(h));
  }

  /** Every multiple of the step below 60 is the minute part of some slot. */
  lemma SlotShowingMinute(list: seq<string>, step: nat, m: nat)
    requires 0 < step <= MinutesInHour && IsTimeLine(list, step)
    requires m < MinutesInHour && m % step == 0
    ensures Some(ToTimeFormat(m)) in Components(list, 1)
  {
    var k := m / step;
    DivModUnique(m, step, k, 0);
    assert k * step == m;
    SlotCountIsRowCount(step, k);
    SlotParts(list, step, k);
    assert Components(list, 1)[k] == Some(ToTimeFormat(m));
  }

  /** For a step dividing the hour, the hours column lists each hour 00 to 23
      once and nothing else. */
  lemma HourColumnIsEveryHour(list: seq<string>, step: nat)
    requires 0 < step <= MinutesInHour && MinutesInHour % step == 0 && IsTimeLine(list, step)
    ensures NoDuplicates(TimeLineRows(list, Hours))
    ensures forall r :: r in TimeLineRows(list, Hours) <==>
      exists h :: 0 <= h < HoursInDay && r == Some(ToTimeFormat(h))
  {
    var parts := Components(list, 0);
    assert TimeLineRows(list, Hours) == Distinct(parts);
    DistinctIsSetOf(parts);
    forall r
      ensures r in parts <==> exists h :: 0 <= h < HoursInDay && r == Some(ToTimeFormat(h))
    {
      if r in parts {
        var k :| 0 <= k < |parts| && parts[k] == r;
        HourPartOfSlot(list, step, k);
      }
      if exists h :: 0 <= h < HoursInDay && r == Some(ToTimeFormat(h)) {
        var h :| 0 <= h < HoursInDay && r == Some(ToTimeFormat(h));
        SlotShowingHour(list, step, h);
      }
    }
  }

  /** For a step dividing the hour, the minutes column lists each multiple of
      the step below 60 once and nothing else. */
  lemma MinuteColumnIsEveryStep(list: seq<string>, step: nat)
    requires 0 < step <= MinutesInHour && MinutesInHour % step == 0 && IsTimeLine(list, step)
    ensures NoDuplicates(TimeLineRows(list, Minutes))
    ensures forall r :: r in TimeLineRows(list, Minutes) <==>
      exists m :: 0 <= m < MinutesInHour && m % step == 0 && r == Some(ToTimeFormat(m))
  {
    var parts := Components(list, 1);
    assert TimeLineRows(list, Minutes) == Distinct(parts);
    DistinctIsSetOf(parts);
    forall r
      ensures r in parts <==>
        exists m :: 0 <= m < MinutesInHour && m % step == 0 && r == Some(ToTimeFormat(m))
    {
      if r in parts {
        var k :| 0 <= k < |parts| && parts[k] == r;
        MinutePartOfSlot(list, step, k);
      }
      if exists m :: 0 <= m < MinutesInHour && m % step == 0 && r == Some(ToTimeFormat(m)) {
        var m :| 0 <= m < MinutesInHour && m % step == 0 && r == Some(ToTimeFormat(m));
        SlotShowingMinute(list, step, m);
      }
    }
  }

  /** The label of hour `h` in the hours column. */
  function HourLabel(h: nat): Option<string> {
    Some(ToTimeFormat(h))
  }

  /** The label of the `j`-th minute row: the padded `j * step`. */
  function MinuteLabel(step: nat, j: nat): Option<string> {
    Some(ToTimeFormat(j * step))
  }

  /** The minute labels of a step as one function of the index. */
  function MinuteLabels(step: nat): nat -> Option<string> {
    (j: nat) => MinuteLabel(step, j)
  }

  /** Distinct numbers are padded to distinct texts. */
  lemma ToTimeFormatInjective(a: nat, b: nat)
    requires ToTimeFormat(a) == ToTimeFormat(b)
    ensures a == b
  {
    ToTimeFormatDigits(a);
    ToTimeFormatDigits(b);
  }

  /** `Distinct` of a list extended by one value keeps the rows it had, and adds
      the value last when it is new. */
  lemma DistinctSnoc<T(!new)>(xs: seq<T>, x: T)
    ensures Distinct(xs + [x]) == if x in Distinct(xs) then Distinct(xs) else Distinct(xs) + [x]
  {
    assert (xs + [x])[..|xs|] == xs;
  }

  /** With `c` slots to the hour, slot `n` falls in hour `n / c`, at minute
      `(n % c) * step`. */
  lemma SlotOfHour(step: nat, c: nat, n: nat)
    requires 0 < step && 0 < c && c * step == MinutesInHour
    ensures (n * step) / MinutesInHour == n / c
    ensures (n * step) % MinutesInHour == (n % c) * step
  {
    var q, r := n / c, n % c;
    assert n * step == q * MinutesInHour + r * step by {
      assert n == q * c + r;
      assert n * step == q * (c * step) + r * step;
    }
    assert r * step < MinutesInHour by {
      MulMonotone(r + 1, c, step);
    }
    DivModUnique(n * step, MinutesInHour, q, r * step);
  }

  /** Slot `k` shows hour `k / c` and minute `(k % c) * step`, `c` being the
      number of slots to the hour. */
  lemma SlotColumnsAt(list: seq<string>, step: nat, c: nat, k: nat)
    requires 0 < step <= MinutesInHour && 0 < c && c * step == MinutesInHour && IsTimeLine(list, step)
    requires k < |list|
    ensures Components(list, 0)[k] == HourLabel(k / c)
    ensures Components(list, 1)[k] == MinuteLabel(step, k % c)
  {
    SlotParts(list, step, k);
    SlotOfHour(step, c, k);
  }

  /** How many hours the first `n` slots begin, `(n + c - 1) / c`, grows by one
      exactly at a slot that starts an hour. */
  lemma HoursBegun(m: nat, c: nat)
    requires 0 < c
    ensures (m + c) / c == m / c + 1
    ensures m % c == 0 ==> (m + c - 1) / c == m / c
    ensures m % c != 0 ==> (m + c - 1) / c == m / c + 1
  {
    var q, r := m / c, m % c;
    DivModUnique(m + c, c, q + 1, r);
    if r == 0 {
      DivModUnique(m + c - 1, c, q, c - 1);
    } else {
      DivModUnique(m + c - 1, c, q + 1, r - 1);
    }
  }

  /** The labels `f(0), ..., f(n - 1)`. */
  function Labels<T>(f: nat -> T, n: nat): (r: seq<T>)
    ensures |r| == n
    ensures forall i :: 0 <= i < n ==> r[i] == f(i)
  {
    seq(n, i requires 0 <= i < n => f(i))
  }

  /** Entry `n - 1` of a list made of blocks of `c` entries, block `q` labelled
      `f(q)`: the first entry of a block brings a label not seen before, any
      other entry one already seen. */
  lemma BlockLabelsNext<T>(f: nat -> T, c: nat, n: nat)
    requires 0 < c && 0 < n
    requires f((n - 1) / c) !in Labels(f, (n - 1) / c)
    ensures var before, after := Labels(f, (n - 1 + c - 1) / c), Labels(f, (n + c - 1) / c);
      if (n - 1) % c == 0 then f((n - 1) / c) !in before && after == before + [f((n - 1) / c)]
      else f((n - 1) / c) in before && after == before
  {
    var m := n - 1;
    HoursBegun(m, c);
    var q := m / c;
    assert n + c - 1 == m + c;
    var before := Labels(f, (m + c - 1) / c);
    if m % c == 0 {
      assert Labels(f, q + 1) == before + [f(q)];
    } else {
      assert before[q] == f(q);
    }
  }

  /** Entry `n - 1` of a list whose entry `k` is labelled `f(k % c)`: within the
      first `c` entries each brings a new label, afterwards none does. */
  lemma CycleLabelsNext<T>(f: nat -> T, c: nat, n: nat)
    requires 0 < c && 0 < n
    requires n - 1 < c ==> f(n - 1) !in Labels(f, n - 1)
    ensures var before, after := Labels(f, if n - 1 < c then n - 1 else c), Labels(f, if n < c then n else c);
      if n - 1 < c then f((n - 1) % c) !in before && after == before + [f((n - 1) % c)]
      else f((n - 1) % c) in before && after == before
  {
    var m := n - 1;
    var before := Labels(f, if m < c then m else c);
    if m < c {
      DivModUnique(m, c, 0, m);
      assert Labels(f, n) == before + [f(m)];
    } else {
      assert before[m % c] == f(m % c);
    }
  }

  /** A list made of blocks of `c` equal entries, block `q` holding a label
      `f(q)` that no earlier block has, lists as its distinct values the labels
      of the blocks it reaches, in block order: this is the hours column. */
  lemma {:induction false} DistinctOfBlocks<T(!new)>(parts: seq<T>, f: nat -> T, c: nat, n: nat)
    requires 0 < c && n <= |parts|
    requires forall q: nat {:trigger Labels(f, q)} :: f(q) !in Labels(f, q)
    requires forall k :: 0 <= k < |parts| ==> parts[k] == f(k / c)
    ensures Distinct(parts[..n]) == Labels(f, (n + c - 1) / c)
    decreases n
  {
    if n == 0 {
      assert parts[..0] == [];
      DivModUnique(c - 1, c, 0, c - 1);
    } else {
      var m: nat := n - 1;
      DistinctOfBlocks(parts, f, c, m);
      DistinctBlocksStep(parts, f, c, n);
    }
  }

  /** One entry more in `DistinctOfBlocks`. */
  lemma DistinctBlocksStep<T(!new)>(parts: seq<T>, f: nat -> T, c: nat, n: nat)
    requires 0 < c && 0 < n <= |parts|
    requires f((n - 1) / c) !in Labels(f, (n - 1) / c)
    requires parts[n - 1] == f((n - 1) / c)
    requires Distinct(parts[..n - 1]) == Labels(f, (n - 1 + c - 1) / c)
    ensures Distinct(parts[..n]) == Labels(f, (n + c - 1) / c)
  {
    assert parts[..n] == parts[..n - 1] + [parts[n - 1]];
    DistinctSnoc(parts[..n - 1], parts[n - 1]);
    BlockLabelsNext(f, c, n);
  }

  /** A list whose entry `k` is the label `f(k % c)`, each of the first `c`
      labels new, lists as its distinct values the labels of the first `c`
      entries, in order: this is the minutes column. */
  lemma {:induction false} DistinctOfCycle<T(!new)>(parts: seq<T>, f: nat -> T, c: nat, n: nat)
    requires 0 < c && n <= |parts|
    requires forall j: nat {:trigger Labels(f, j)} :: j < c ==> f(j) !in Labels(f, j)
    requires forall k :: 0 <= k < |parts| ==> parts[k] == f(k % c)
    ensures Distinct(parts[..n]) == Labels(f, if n < c then n else c)
    decreases n
  {
    if n == 0 {
      assert parts[..0] == [];
    } else {
      var m: nat := n - 1;
      DistinctOfCycle(parts, f, c, m);
      DistinctCycleStep(parts, f, c, n);
    }
  }

  /** One entry more in `DistinctOfCycle`. */
  lemma DistinctCycleStep<T(!new)>(parts: seq<T>, f: nat -> T, c: nat, n: nat)
    requires 0 < c && 0 < n <= |parts|
    requires n - 1 < c ==> f(n - 1) !in Labels(f, n - 1)
    requires parts[n - 1] == f((n - 1) % c)
    requires Distinct(parts[..n - 1]) == Labels(f, if n - 1 < c then n - 1 else c)
    ensures Distinct(parts[..n]) == Labels(f, if n < c then n else c)
  {
    assert parts[..n] == parts[..n - 1] + [parts[n - 1]];
    DistinctSnoc(parts[..n - 1], parts[n - 1]);
    CycleLabelsNext(f, c, n);
  }

  /** No hour label repeats an earlier one. */
  lemma HourLabelsFresh(q: nat)
    ensures HourLabel(q) !in Labels(HourLabel, q)
  {
    forall h | 0 <= h < q ensures Labels(HourLabel, q)[h] != HourLabel(q) {
      if Labels(HourLabel, q)[h] == HourLabel(q) {
        ToTimeFormatInjective(h, q);
      }
    }
  }

  /** No minute label repeats an earlier one. */
  lemma MinuteLabelsFresh(step: nat, j: nat)
    requires 0 < step
    ensures MinuteLabel(step, j) !in Labels(MinuteLabels(step), j)
  {
    var f := MinuteLabels(step);
    forall i | 0 <= i < j ensures Labels(f, j)[i] != f(j) {
      MulMonotone(i + 1, j, step);
      if Labels(f, j)[i] == f(j) {
        ToTimeFormatInjective(i * step, j * step);
      }
    }
  }

  /** For a step dividing the hour, `c = 60 / step` slots make an hour and the
      time line is 24 blocks of them. */
  lemma SlotsInHour(step: nat)
    requires 0 < step <= MinutesInHour && MinutesInHour % step == 0
    ensures var c := MinutesInHour / step;
      && 0 < c && c * step == MinutesInHour
      && SlotCount(step) == HoursInDay * c
  {
    var c := MinutesInHour / step;
    assert c * step == MinutesInHour;
    SlotCountOfDivisor(step);
  }

  /** Hour label `q` is new after the labels of `0` to `q - 1`, for every `q`. */
  lemma HourLabelsAllFresh()
    ensures forall q: nat {:trigger Labels(HourLabel, q)} :: HourLabel(q) !in Labels(HourLabel, q)
  {
    forall q: nat ensures HourLabel(q) !in Labels(HourLabel, q) {
      HourLabelsFresh(q);
    }
  }

  /** Minute label `j` is new after the labels of `0` to `j - 1`, for every `j`. */
  lemma MinuteLabelsAllFresh(step: nat)
    requires 0 < step
    ensures var f := MinuteLabels(step);
      forall j: nat {:trigger Labels(f, j)} :: j < MinutesInHour / step ==> f(j) !in Labels(f, j)
  {
    var f := MinuteLabels(step);
    forall j: nat | j < MinutesInHour / step ensures f(j) !in Labels(f, j) {
      MinuteLabelsFresh(step, j);
    }
  }

  /** For a step dividing the hour, slot `k` of the time line shows hour
      `k / c` and minute `(k % c) * step`, where `c = 60 / step`. */
  lemma SlotsOfDivisor(list: seq<string>, step: nat)
    requires 0 < step <= MinutesInHour && MinutesInHour % step == 0 && IsTimeLine(list, step)
    ensures var c := MinutesInHour / step;
      && 0 < c
      && |list| == HoursInDay * c
      && (forall k :: 0 <= k < |list| ==> Components(list, 0)[k] == HourLabel(k / c))
      && (forall k :: 0 <= k < |list| ==> Components(list, 1)[k] == MinuteLabel(step, k % c))
  {
    var c := MinutesInHour / step;
    SlotsInHour(step);
    forall k | 0 <= k < |list|
      ensures Components(list, 0)[k] == HourLabel(k / c)
      ensures Components(list, 1)[k] == MinuteLabel(step, k % c)
    {
      SlotColumnsAt(list, step, c, k);
    }
  }

  /** 24 blocks of `c` entries, block `q` showing hour `q`, list the hours
      00 to 23 in order. */
  lemma HourColumnOfBlocks(parts: seq<Option<string>>, c: nat)
    requires 0 < c && |parts| == HoursInDay * c
    requires forall k :: 0 <= k < |parts| ==> parts[k] == HourLabel(k / c)
    ensures Distinct(parts) == Labels(HourLabel, HoursInDay)
  {
    HourLabelsAllFresh();
    DistinctOfBlocks(parts, HourLabel, c, |parts|);
    assert parts[..|parts|] == parts;
    DivModUnique(HoursInDay * c + c - 1, c, HoursInDay, c - 1);
  }

  /** Entries cycling through the `c` minute labels of `step`, at least `c` of
      them, list those labels in order. */
  lemma MinuteColumnOfCycle(parts: seq<Option<string>>, step: nat, c: nat)
    requires 0 < step && c == MinutesInHour / step && 0 < c <= |parts|
    requires forall k :: 0 <= k < |parts| ==> parts[k] == MinuteLabel(step, k % c)
    ensures Distinct(parts) == Labels(MinuteLabels(step), c)
  {
    var f := MinuteLabels(step);
    MinuteLabelsAllFresh(step);
    assert forall k :: 0 <= k < |parts| ==> parts[k] == f(k % c);
    DistinctOfCycle(parts, f, c, |parts|);
    assert parts[..|parts|] == parts;
  }

  /** For a step dividing the hour, the hours column lists 00 to 23 in order. */
  lemma HourColumnInOrder(list: seq<string>, step: nat)
    requires 0 < step <= MinutesInHour && MinutesInHour % step == 0 && IsTimeLine(list, step)
    ensures TimeLineRows(list, Hours) == Labels(HourLabel, HoursInDay)
  {
    SlotsOfDivisor(list, step);
    HourColumnOfBlocks(Components(list, 0), MinutesInHour / step);
  }

  /** For a step dividing the hour, the minutes column lists 0, step,
      2 * step, ... below 60, in order. */
  lemma MinuteColumnInOrder(list: seq<string>, step: nat)
    requires 0 < step <= MinutesInHour && MinutesInHour % step == 0 && IsTimeLine(list, step)
    ensures TimeLineRows(list, Minutes) == Labels(MinuteLabels(step), MinutesInHour / step)
  {
    var c := MinutesInHour / step;
    SlotsOfDivisor(list, step);
    assert c <= HoursInDay * c;
    MinuteColumnOfCycle(Components(list, 1), step, c);
  }

  /** `TimeInput`'s `getValue`: the value, or "--" when it is unset. */
  function GetValue(value: Option<string>): string {
    if Truthy(value) then value.value else "--"
  }

  /** The read-only time field shows the same text as the entry fields, whose
      buffers join to the value or to the "--" placeholder; it shows "--"
      exactly when the value is unset or is itself "--". */
  lemma TimeInputShowsEntryText(value: Option<string>)
    ensures GetValue(value) == Concat(LocalValue(value))
    ensures GetValue(value) == "--" <==> !Truthy(value) || value.value == "--"
  {
    LocalValueText(value);
  }

  /** The picker's state; `rows` is `getTimeSlots(5)`, the list both columns
      are drawn from. */
  class TimePicker {
    var showTimeline: bool
    var hours: Option<string>
    var minutes: Option<string>
    const rows: seq<string>

    constructor ()
      ensures !showTimeline && hours == None && minutes == None
      ensures IsTimeLine(rows, 5)
    {
      var slots := GetTimeSlots(5);
      showTimeline := false;
      hours := None;
      minutes := None;
      rows := slots;
    }

    /** `handleShowTimeline`: the clock icon opens the dropdown. */
    method ShowTimeline()
      modifies this
      ensures showTimeline
      ensures hours == old(hours) && minutes == old(minutes)
    {
      showTimeline := true;
    }

    /** A click on a row of the column of `unit`: that column's selection
        becomes the row's text, and nothing else changes. */
    method Select(unit: Unit, value: string)
      modifies this
      ensures unit == Hours ==> hours == Some(value) && minutes == old(minutes)
      ensures unit == Minutes ==> minutes == Some(value) && hours == old(hours)
      ensures showTimeline == old(showTimeline)
    {
      if unit == Hours {
        hours := Some(value);
      } else {
        minutes := Some(value);
      }
    }

    /** `hideTimeLine` on a mousedown; `outside` is whether it landed outside
        the picker. An outside click closes the dropdown and clears both
        selections, and passes them to the parent, returned here, only when
        both are set. */
    method HideTimeLine(outside: bool) returns (passed: Option<(string, string)>)
      modifies this
      ensures outside ==> !showTimeline && hours == None && minutes == None
      ensures outside && Truthy(old(hours)) && Truthy(old(minutes)) ==>
        passed == Some((old(hours).value, old(minutes).value))
      ensures !(outside && Truthy(old(hours)) && Truthy(old(minutes))) ==> passed == None
      ensures !outside ==>
        showTimeline == old(showTimeline) && hours == old(hours) && minutes == old(minutes)
    {
      passed := None;
      if outside {
        showTimeline := false;
        if Truthy(hours) && Truthy(minutes) {
          passed := Some((hours.value, minutes.value));
        }
        hours := None;
        minutes := None;
      }
    }
  }

  /** Over the picker's own list the hours column lists 00, 01, ..., 23 and the
      minutes column 00, 05, ..., 55, each value once and in that order. */
  lemma PickerColumns(rows: seq<string>)
    requires IsTimeLine(rows, 5)
    ensures TimeLineRows(rows, Hours) == Labels(HourLabel, HoursInDay)
    ensures TimeLineRows(rows, Minutes) == Labels(MinuteLabels(5), MinutesInHour / 5)
    ensures NoDuplicates(TimeLineRows(rows, Hours)) && NoDuplicates(TimeLineRows(rows, Minutes))
    ensures forall r :: r in TimeLineRows(rows, Hours) <==>
      exists h :: 0 <= h < HoursInDay && r == Some(ToTimeFormat(h))
    ensures forall r :: r in TimeLineRows(rows, Minutes) <==>
      exists m :: 0 <= m < MinutesInHour && m % 5 == 0 && r == Some(ToTimeFormat(m))
  {
    HourColumnIsEveryHour(rows, 5);
    MinuteColumnIsEveryStep(rows, 5);
    HourColumnInOrder(rows, 5);
    MinuteColumnInOrder(rows, 5);
  }
}
