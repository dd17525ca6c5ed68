/** The buffered two-field entry component: each field keeps its own local
    buffer of one-character strings, which keystrokes and prop changes replace.
    Keystrokes never reach the parent; the parent's values only flow in. */
module BufferedEntry {
  import opened Shared
  import opened Text

  /** `[, ...rest] = buffer; rest.concat(key)`: drop the oldest entry and
      append the key, so the buffer keeps its length. */
  function ShiftIn(buffer: seq<string>, key: string): (r: seq<string>)
    ensures |buffer| >= 1 ==> |r| == |buffer|
    ensures |r| >= 1 && r[|r| - 1] == key
    ensures |buffer| >= 1 ==> forall k :: 0 <= k < |r| - 1 ==> r[k] == buffer[k + 1]
  {
    (if buffer == [] then [] else buffer[1..]) + [key]
  }

  /** The focused buffer after a key: arrows replace it with the characters of
      the incremented or decremented text, a key holding a digit is shifted in,
      and any other key leaves it as it was. */
  function NextBuffer(buffer: seq<string>, key: string,
                      increase: string -> string, decrease: string -> string): seq<string>
  {
    if key == "ArrowUp" then Chars(increase(Concat(buffer)))
    else if key == "ArrowDown" then Chars(decrease(Concat(buffer)))
    else if !ContainsDigit(key) then buffer
    else ShiftIn(buffer, key)
  }

  /** A key that is not an arrow and holds no digit is ignored. */
  lemma IgnoredKey(buffer: seq<string>, key: string,
                   increase: string -> string, decrease: string -> string)
    requires key != "ArrowUp" && key != "ArrowDown" && !ContainsDigit(key)
    ensures NextBuffer(buffer, key, increase, decrease) == buffer
  {
  }

  /** The arrow keys hold no digit, so a key holding one always takes the shift
      path; for the two-entry buffers the component keeps, the result is the
      newer entry followed by the key, however long the key is. */
  lemma DigitKeyShiftsIn(buffer: seq<string>, key: string,
                         increase: string -> string, decrease: string -> string)
    requires ContainsDigit(key)
    ensures NextBuffer(buffer, key, increase, decrease) == ShiftIn(buffer, key)
    ensures |buffer| == 2 ==> NextBuffer(buffer, key, increase, decrease) == [buffer[1], key]
  {
    ArrowKeysHoldNoDigit();
    var r := NextBuffer(buffer, key, increase, decrease);
    if |buffer| == 2 {
      assert r == [buffer[1], key];
    }
  }

  /** After an arrow the field shows exactly `increase`/`decrease` of what it
      showed before: spreading the helper's result and joining it back is the
      identity. */
  lemma ArrowShowsHelperResult(buffer: seq<string>,
                               increase: string -> string, decrease: string -> string)
    ensures Concat(NextBuffer(buffer, "ArrowUp", increase, decrease)) == increase(Concat(buffer))
    ensures Concat(NextBuffer(buffer, "ArrowDown", increase, decrease)) == decrease(Concat(buffer))
  {
    ConcatChars(increase(Concat(buffer)));
    ConcatChars(decrease(Concat(buffer)));
  }

  /** The component's state: the two local buffers. */
  class Inputs {
    var localHours: seq<string>
    var localMinutes: seq<string>

    /** Initial state: each buffer holds the prop's characters, or "--". */
    constructor (hours: Option<string>, minutes: Option<string>)
      ensures localHours == LocalValue(hours) && localMinutes == LocalValue(minutes)
    {
      localHours := LocalValue(hours);
      localMinutes := LocalValue(minutes);
    }

    /** `localHours.join("")`, the text of the hours field. */
    function HoursText(): string
      reads this
    {
      Concat(localHours)
    }

    /** `localMinutes.join("")`, the text of the minutes field. */
    function MinutesText(): string
      reads this
    {
      Concat(localMinutes)
    }

    /** A key pressed in the field of `unit`: only that field's buffer changes,
        and after an arrow the field shows the helper's result for what it
        showed. Nothing is returned, because the handler never calls the
        parent's setter. */
    method KeyDown(key: string, unit: Unit, helpers: Helpers)
      modifies this
      ensures unit == Hours ==>
        localHours == NextBuffer(old(localHours), key, helpers.incrementHours, helpers.decrementHours)
        && localMinutes == old(localMinutes)
      ensures unit == Minutes ==>
        localMinutes == NextBuffer(old(localMinutes), key, helpers.incrementMinutes, helpers.decrementMinutes)
        && localHours == old(localHours)
      ensures key == "ArrowUp" && unit == Hours ==>
        HoursText() == helpers.incrementHours(old(HoursText()))
      ensures key == "ArrowUp" && unit == Minutes ==>
        MinutesText() == helpers.incrementMinutes(old(MinutesText()))
      ensures key == "ArrowDown" && unit == Hours ==>
        HoursText() == helpers.decrementHours(old(HoursText()))
      ensures key == "ArrowDown" && unit == Minutes ==>
        MinutesText() == helpers.decrementMinutes(old(MinutesText()))
    {
      var current := if unit == Hours then localHours else localMinutes;
      var increase := Increase(helpers, unit);
      var decrease := Decrease(helpers, unit);
      var updated: seq<string>;
      if key == "ArrowUp" {
        updated := Chars(increase(Concat(current)));
        ConcatChars(increase(Concat(current)));
      } else if key == "ArrowDown" {
        updated := Chars(decrease(Concat(current)));
        ConcatChars(decrease(Concat(current)));
      } else if !ContainsDigit(key) {
        return;
      } else {
        var rest := if current == [] then [] else current[1..];
        updated := rest + [key];
      }
      if unit == Hours {
        localHours := updated;
      } else {
        localMinutes := updated;
      }
    }

    /** The effect on the `hours` prop: a set value replaces the hours buffer. */
    method SyncHours(hours: Option<string>)
      modifies this
      ensures localHours == if Truthy(hours) then Chars(hours.value) else old(localHours)
      ensures localMinutes == old(localMinutes)
    {
      if Truthy(hours) {
        localHours := Chars(hours.value);
      }
    }

    /** The effect on the `minutes` prop: a set value replaces the minutes buffer. */
    method SyncMinutes(minutes: Option<string>)
      modifies this
      ensures localMinutes == if Truthy(minutes) then Chars(minutes.value) else old(localMinutes)
      ensures localHours == old(localHours)
    {
      if Truthy(minutes) {
        localMinutes := Chars(minutes.value);
      }
    }

    /** The effect on `shallClear`: when raised, both buffers show "--". */
    method Clear(shallClear: bool)
      modifies this
      ensures shallClear ==> localHours == Unset && localMinutes == Unset
      ensures !shallClear ==> localHours == old(localHours) && localMinutes == old(localMinutes)
    {
      if shallClear {
        localHours := Unset;
        localMinutes := Unset;
      }
    }
  }

  /** Digit keys typed into a two-entry buffer keep it two entries long, and
      after two or more of them it holds exactly the last two keys. */
  lemma DigitKeysKeepTwoEntries(buffer: seq<string>, keys: seq<string>,
                                increase: string -> string, decrease: string -> string)
    requires |buffer| == 2
    requires forall k :: 0 <= k < |keys| ==> ContainsDigit(keys[k])
    ensures |Replay(buffer, keys, increase, decrease)| == 2
    ensures |keys| >= 2 ==>
      Replay(buffer, keys, increase, decrease) == [keys[|keys| - 2], keys[|keys| - 1]]
    decreases |keys|
  {
    if keys != [] {
      var init := keys[..|keys| - 1];
      DigitKeysKeepTwoEntries(buffer, init, increase, decrease);
      var before := Replay(buffer, init, increase, decrease);
      DigitKeyShiftsIn(before, keys[|keys| - 1], increase, decrease);
      if |keys| >= 2 {
        if |init| >= 2 {
          assert before == [init[|init| - 2], init[|init| - 1]];
        } else {
          assert |init| == 1;
          assert before[1] == init[0] by {
            DigitKeyShiftsIn(buffer, init[0], increase, decrease);
            assert init == [init[0]];
            assert Replay(buffer, init, increase, decrease)
              == NextBuffer(Replay(buffer, [], increase, decrease), init[0], increase, decrease);
          }
        }
      }
    }
  }

  /** The focused buffer after a sequence of keys, oldest first. */
  function Replay(buffer: seq<string>, keys: seq<string>,
                  increase: string -> string, decrease: string -> string): seq<string>
    decreases |keys|
  {
    if keys == [] then buffer
    else NextBuffer(Replay(buffer, keys[..|keys| - 1], increase, decrease), keys[|keys| - 1], increase, decrease)
  }
}
