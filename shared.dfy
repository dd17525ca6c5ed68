/** Types shared by the widget's components: an optional value (a prop that may be
    `undefined`), the two time units, and the increment/decrement/entry helpers that
    the components import but whose definitions are not part of this model. */
module Shared {
  import opened Text

  datatype Option<+T> = None | Some(value: T)

  /** The field a keystroke or a timeline column belongs to. */
  datatype Unit = Hours | Minutes

  /** The six helpers imported from the utilities module by the two input components.
      Their definitions are not part of this model, so they are parameters: every
      property proved below holds whatever they compute. */
  datatype Helpers = Helpers(
    incrementHours: string -> string,
    decrementHours: string -> string,
    incrementMinutes: string -> string,
    decrementMinutes: string -> string,
    shouldSkipAsap: (string, nat, Unit) -> bool,
    setNewTime: (string, string, nat, Unit) -> string)

  /** `unit === "hours" ? incrementHours : incrementMinutes` */
  function Increase(h: Helpers, unit: Unit): string -> string {
    if unit == Hours then h.incrementHours else h.incrementMinutes
  }

  /** `unit === "hours" ? decrementHours : decrementMinutes` */
  function Decrease(h: Helpers, unit: Unit): string -> string {
    if unit == Hours then h.decrementHours else h.decrementMinutes
  }

  /** Neither arrow key's name contains a digit. */
  lemma ArrowKeysHoldNoDigit()
    ensures !ContainsDigit("ArrowUp") && !ContainsDigit("ArrowDown")
  {
    var up, down := "ArrowUp", "ArrowDown";
    forall i | 0 <= i < |up| ensures !IsDigit(up[i]) {
    }
    forall i | 0 <= i < |down| ensures !IsDigit(down[i]) {
    }
  }

  /** JavaScript truthiness of a `string | undefined`: both `undefined` and `""` are falsy. */
  predicate Truthy(v: Option<string>) {
    v.Some? && v.value != ""
  }

  /** The two-character placeholder of an empty field. */
  const Unset: seq<string> := ["-", "-"]

  /** `value ? [...value] : ["-", "-"]`: a field's characters, or the placeholder. */
  function LocalValue(v: Option<string>): seq<string> {
    if Truthy(v) then Chars(v.value) else Unset
  }

  /** Joining a field's characters shows the value itself, or "--" when it is
      unset: `LocalValue(v).join("")`. */
  lemma LocalValueText(v: Option<string>)
    ensures Concat(LocalValue(v)) == if Truthy(v) then v.value else "--"
  {
    if Truthy(v) {
      ConcatChars(v.value);
    }
  }
}
