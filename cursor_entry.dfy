/** The controlled two-field entry component: the field values belong to the
    parent and every keystroke is sent to the parent's setter, while the
    component keeps a cursor `idx` (digits typed into the current field) and a
    `skip` flag that moves the focus on to the minutes field. */
module CursorEntry {
  import opened Shared
  import opened Text

  /** `currentValue.join("") === "--" ? "00" : currentValue.join("")`: what the
      helpers are given, an unset field being read as "00". */
  function Adjusted(value: Option<string>): (r: string)
    ensures r == if Truthy(value) && value.value != "--" then value.value else "00"
  {
    LocalValueText(value);
    var joined := Concat(LocalValue(value));
    if joined == "--" then "00" else joined
  }

  function Other(unit: Unit): Unit {
    if unit == Hours then Minutes else Hours
  }

  /** The component's state: the two values as last set through the parent's
      setters, the cursor, the skip flag, and how often the minutes field has
      been asked to take the focus (`minutesRef.current?.select()`). */
  class Inputs {
    var hours: Option<string>
    var minutes: Option<string>
    var idx: nat
    var skip: bool
    var minutesSelections: nat

    constructor (hours: Option<string>, minutes: Option<string>)
      ensures this.hours == hours && this.minutes == minutes
      ensures idx == 0 && !skip && minutesSelections == 0
    {
      this.hours := hours;
      this.minutes := minutes;
      idx := 0;
      skip := false;
      minutesSelections := 0;
    }

    /** The value of the field of `unit`. */
    function Field(unit: Unit): Option<string>
      reads this
    {
      if unit == Hours then hours else minutes
    }

    /** The state every effect leaves behind: at most one digit typed into the
        current field and no pending skip. */
    predicate Settled()
      reads this
    {
      idx <= 1 && !skip
    }

    /** A key pressed in the field of `unit`, before any effect runs. */
    method KeyDown(key: string, unit: Unit, helpers: Helpers)
      modifies this
      ensures key == "ArrowUp" ==>
        Field(unit) == Some(Increase(helpers, unit)(Adjusted(old(Field(unit)))))
        && idx == old(idx) && skip == old(skip)
      ensures key == "ArrowDown" ==>
        Field(unit) == Some(Decrease(helpers, unit)(Adjusted(old(Field(unit)))))
        && idx == old(idx) && skip == old(skip)
      ensures key != "ArrowUp" && key != "ArrowDown" && !ContainsDigit(key) ==>
        Field(unit) == old(Field(unit)) && idx == old(idx) && skip == old(skip)
      ensures ContainsDigit(key) && helpers.shouldSkipAsap(key, old(idx), unit) ==>
        Field(unit) == Some("0" + key) && idx == 0 && skip
      ensures ContainsDigit(key) && !helpers.shouldSkipAsap(key, old(idx), unit) ==>
        Field(unit) == Some(helpers.setNewTime(Adjusted(old(Field(unit))), key, old(idx), unit))
        && idx == old(idx) + 1 && skip == old(skip)
      ensures Field(Other(unit)) == old(Field(Other(unit)))
      ensures minutesSelections == old(minutesSelections)
    {
      ArrowKeysHoldNoDigit();
      var adjusted := Adjusted(Field(unit));
      var sent: string;
      if key == "ArrowUp" {
        sent := Increase(helpers, unit)(adjusted);
      } else if key == "ArrowDown" {
        sent := Decrease(helpers, unit)(adjusted);
      } else if ContainsDigit(key) {
        if helpers.shouldSkipAsap(key, idx, unit) {
          idx := 0;
          skip := true;
          sent := "0" + key;
        } else {
          sent := helpers.setNewTime(adjusted, key, idx, unit);
          idx := idx + 1;
        }
      } else {
        return;
      }
      if unit == Hours {
        hours := Some(sent);
      } else {
        minutes := Some(sent);
      }
    }

    /** The effect on `idx`: past the second digit the cursor starts over and a
        skip is raised. */
    method IndexEffect()
      modifies this
      ensures old(idx) > 1 ==> idx == 0 && skip
      ensures old(idx) <= 1 ==> idx == old(idx) && skip == old(skip)
      ensures hours == old(hours) && minutes == old(minutes)
      ensures minutesSelections == old(minutesSelections)
    {
      if idx > 1 {
        idx := 0;
        skip := true;
      }
    }

    /** The effect on `skip`: a raised skip asks the minutes field for the focus,
        resets the cursor and is lowered again. */
    method SkipEffect()
      modifies this
      ensures old(skip) ==> idx == 0 && !skip && minutesSelections == old(minutesSelections) + 1
      ensures !old(skip) ==>
        idx == old(idx) && !skip && minutesSelections == old(minutesSelections)
      ensures hours == old(hours) && minutes == old(minutes)
    {
      if skip {
        minutesSelections := minutesSelections + 1;
        idx := 0;
        skip := false;
      }
    }

    /** The effect on `shallClear`: both parent values are unset and the cursor
        returns to the start. */
    method ClearEffect(shallClear: bool)
      modifies this
      ensures shallClear ==> hours == None && minutes == None && idx == 0
      ensures !shallClear ==> hours == old(hours) && minutes == old(minutes) && idx == old(idx)
      ensures skip == old(skip) && minutesSelections == old(minutesSelections)
    {
      if shallClear {
        hours := None;
        minutes := None;
        idx := 0;
      }
    }

    /** The re-renders after a handler: the `idx` effect, then the `skip`
        effect. Each only acts when its own guard holds, so applying both
        gives what React's re-render cycle gives. The result is always
        settled, and a skip, whichever field was being edited, focuses the
        minutes field. */
    method Settle()
      modifies this
      ensures Settled()
      ensures old(idx) > 1 || old(skip) ==>
        idx == 0 && minutesSelections == old(minutesSelections) + 1
      ensures !(old(idx) > 1 || old(skip)) ==>
        idx == old(idx) && minutesSelections == old(minutesSelections)
      ensures hours == old(hours) && minutes == old(minutes)
    {
      IndexEffect();
      SkipEffect();
    }

    /** A key followed by the effects it triggers. From a settled state the
        state is settled again; a second digit, or an early skip, puts the
        cursor back at 0 and moves the focus to the minutes field. */
    method HandleKey(key: string, unit: Unit, helpers: Helpers)
      requires Settled()
      modifies this
      ensures Settled()
      ensures !ContainsDigit(key) ==>
        idx == old(idx) && minutesSelections == old(minutesSelections)
      ensures key != "ArrowUp" && key != "ArrowDown" && !ContainsDigit(key) ==>
        Field(unit) == old(Field(unit))
      ensures ContainsDigit(key) && helpers.shouldSkipAsap(key, old(idx), unit) ==>
        Field(unit) == Some("0" + key)
        && idx == 0 && minutesSelections == old(minutesSelections) + 1
      ensures ContainsDigit(key) && !helpers.shouldSkipAsap(key, old(idx), unit) ==>
        Field(unit) == Some(helpers.setNewTime(Adjusted(old(Field(unit))), key, old(idx), unit))
      ensures ContainsDigit(key) && !helpers.shouldSkipAsap(key, old(idx), unit) && old(idx) == 0 ==>
        idx == 1 && minutesSelections == old(minutesSelections)
      ensures ContainsDigit(key) && !helpers.shouldSkipAsap(key, old(idx), unit) && old(idx) == 1 ==>
        idx == 0 && minutesSelections == old(minutesSelections) + 1
      ensures key == "ArrowUp" ==>
        Field(unit) == Some(Increase(helpers, unit)(Adjusted(old(Field(unit)))))
      ensures key == "ArrowDown" ==>
        Field(unit) == Some(Decrease(helpers, unit)(Adjusted(old(Field(unit)))))
      ensures Field(Other(unit)) == old(Field(Other(unit)))
    {
      ArrowKeysHoldNoDigit();
      KeyDown(key, unit, helpers);
      Settle();
    }
  }
}
