/** The text input control: its props, its two pieces of local state (the
    internal value and the password-visibility flag), the values derived from
    them, and the handlers that change the state. */
module InputField {
  import opened Wrappers
  import opened JsValues
  import ClassNames

  datatype Variant = Filled | Outlined | Ghost
  datatype Size = Small | Medium | Large
  datatype Theme = Light | Dark

  /** The props; None is an omitted (undefined) prop. `onChange` is reduced
      to whether a callback was supplied. */
  datatype Props = Props(
    labelText: Option<string>,
    placeholder: Option<string>,
    helperText: Option<string>,
    error: Option<string>,
    disabled: Option<bool>,
    invalid: Option<bool>,
    loading: Option<bool>,
    variant: Option<Variant>,
    size: Option<Size>,
    inputType: Option<string>,
    clearable: Option<bool>,
    passwordToggle: Option<bool>,
    theme: Option<Theme>,
    value: Option<string>,
    hasOnChange: bool)

  /** The component's local state. */
  datatype State = State(value: string, showPassword: bool)

  const InitialState: State := State("", false)

  // ---------------------------------------------------------------------
  // Prop defaults
  // ---------------------------------------------------------------------

  datatype Resolved = Resolved(variant: Variant, size: Size, inputType: string, theme: Theme)

  /** Destructuring defaults: each applies only when the prop is omitted. */
  function Resolve(p: Props): (r: Resolved)
    ensures p.variant.None? ==> r.variant == Outlined
    ensures p.size.None? ==> r.size == Medium
    ensures p.inputType.None? ==> r.inputType == "text"
    ensures p.theme.None? ==> r.theme == Light
    ensures p.variant.Some? ==> r.variant == p.variant.value
    ensures p.size.Some? ==> r.size == p.size.value
    ensures p.inputType.Some? ==> r.inputType == p.inputType.value
    ensures p.theme.Some? ==> r.theme == p.theme.value
  {
    Resolved(p.variant.GetOr(Outlined), p.size.GetOr(Medium), p.inputType.GetOr("text"), p.theme.GetOr(Light))
  }

  function TypeOf(p: Props): string {
    Resolve(p).inputType
  }

  // ---------------------------------------------------------------------
  // Derived values
  // ---------------------------------------------------------------------

  /** `propValue ?? value`: a supplied value prop, even "", wins over the
      internal value, which shows only when the prop is undefined. */
  function Displayed(p: Props, st: State): (v: string)
    ensures p.value.Some? ==> v == p.value.value
    ensures p.value.None? ==> v == st.value
  {
    p.value.GetOr(st.value)
  }

  /** The rendered input type: it departs from the given type exactly when
      the toggle button is shown and revealing the password, and it is then
      "text". */
  function EffectiveType(p: Props, st: State): (t: string)
    ensures t != TypeOf(p) <==> ShowToggle(p) && st.showPassword
    ensures t != TypeOf(p) ==> t == "text"
  {
    assert "text" != "password" by {
      assert "text"[0] != "password"[0];
    }
    if TruthyFlag(p.passwordToggle) && TypeOf(p) == "password" && st.showPassword then "text" else TypeOf(p)
  }

  /** The label element appears iff the label prop is a non-empty string. */
  function ShowLabel(p: Props): (shown: bool)
    ensures shown <==> p.labelText.Some? && |p.labelText.value| > 0
  {
    TruthyOpt(p.labelText)
  }

  /** The clear button appears iff the field is clearable and shows a
      non-empty value; with a value prop supplied that does not depend on the
      internal state. */
  function ShowClear(p: Props, st: State): (shown: bool)
    ensures p.value.Some? ==> (shown <==> p.clearable == Some(true) && p.value.value != "")
    ensures p.value.None? ==> (shown <==> p.clearable == Some(true) && st.value != "")
  {
    TruthyFlag(p.clearable) && Displayed(p, st) != ""
  }

  /** The password toggle appears iff the toggle is enabled and the type prop
      is given as "password" (the default type is "text"). */
  function ShowToggle(p: Props): (shown: bool)
    ensures shown <==> p.passwordToggle == Some(true) && p.inputType == Some("password")
    ensures shown ==> TypeOf(p) != "text"
  {
    assert "text" != "password" by {
      assert "text"[0] != "password"[0];
    }
    TruthyFlag(p.passwordToggle) && TypeOf(p) == "password"
  }

  /** The error text appears iff the error prop is a non-empty string. */
  function ShowError(p: Props): (shown: bool)
    ensures shown <==> p.error.Some? && |p.error.value| > 0
  {
    TruthyOpt(p.error)
  }

  /** Helper text never shows together with error text, and one of the two
      shows iff either prop is a non-empty string. */
  function ShowHelper(p: Props): (shown: bool)
    ensures shown ==> !ShowError(p)
    ensures shown || ShowError(p) <==> TruthyOpt(p.helperText) || TruthyOpt(p.error)
  {
    TruthyOpt(p.helperText) && !TruthyOpt(p.error)
  }

  const WrapperBase: string := "w-full flex flex-col gap-1"

  /** The class of the outer wrapper: the dark theme adds exactly the class
      "text-white". */
  function WrapperClass(p: Props): (c: string)
    ensures Resolve(p).theme == Dark ==> c == WrapperBase + " " + "text-white"
    ensures Resolve(p).theme == Light ==> c == WrapperBase
  {
    var themed := if Resolve(p).theme == Dark then ClassNames.Str("text-white") else ClassNames.Flag(false);
    ClassNames.CnPair(WrapperBase, themed);
    ClassNames.Cn([ClassNames.Str(WrapperBase), themed])
  }

  // ---------------------------------------------------------------------
  // Handlers
  // ---------------------------------------------------------------------

  /** The result of a change event: the new state and the event value handed
      on to `onChange` (None when no callback is supplied). */
  datatype ChangeOutcome = ChangeOutcome(state: State, forwarded: Option<string>)

  function HandleChange(p: Props, st: State, eventValue: string): (o: ChangeOutcome)
    ensures o.state.value == eventValue
    ensures o.state.showPassword == st.showPassword
    ensures o.forwarded.Some? <==> p.hasOnChange
    ensures o.forwarded.Some? ==> o.forwarded.value == eventValue
  {
    ChangeOutcome(st.(value := eventValue), if p.hasOnChange then Some(eventValue) else None)
  }

  /** The clear button's handler. */
  function Clear(st: State): (st': State)
    ensures st'.value == ""
    ensures st'.showPassword == st.showPassword
  {
    st.(value := "")
  }

  /** The password toggle's handler. */
  function TogglePassword(st: State): (st': State)
    ensures st'.showPassword != st.showPassword
    ensures st'.value == st.value
  {
    st.(showPassword := !st.showPassword)
  }

  // ---------------------------------------------------------------------
  // Properties
  // ---------------------------------------------------------------------

  /** The defaults of omitted props. */
  lemma Defaults(p: Props)
    requires p.variant.None? && p.size.None? && p.inputType.None? && p.theme.None?
    ensures Resolve(p) == Resolved(Outlined, Medium, "text", Light)
    ensures !ShowToggle(p)
    ensures forall st :: EffectiveType(p, st) == "text"
  {
    assert TypeOf(p) == "text";
    assert "text" != "password" by {
      assert "text"[0] != "password"[0];
    }
  }

  /** The displayed value is the value prop whenever one is supplied, the
      internal state otherwise; so a change event shows its value only when
      the field is uncontrolled. */
  lemma ChangeShowsValueIffUncontrolled(p: Props, st: State, v: string)
    ensures p.value.Some? ==> Displayed(p, HandleChange(p, st, v).state) == p.value.value
    ensures p.value.None? ==> Displayed(p, HandleChange(p, st, v).state) == v
    ensures Displayed(p, HandleChange(p, st, v).state) == v <==> p.value.None? || p.value.value == v
  {
  }

  /** Clearing empties an uncontrolled field and hides the clear button; with
      a value prop supplied it changes neither what is shown nor the button. */
  lemma ClearEffect(p: Props, st: State)
    ensures p.value.None? ==> Displayed(p, Clear(st)) == "" && !ShowClear(p, Clear(st))
    ensures p.value.Some? ==>
      (Displayed(p, Clear(st)) == Displayed(p, st) && (ShowClear(p, Clear(st)) <==> ShowClear(p, st)))
    ensures EffectiveType(p, Clear(st)) == EffectiveType(p, st)
  {
  }

  /** Two clicks on the password toggle restore the state. */
  lemma ToggleTwice(st: State)
    ensures TogglePassword(TogglePassword(st)) == st
  {
  }

  /** The input is masked as a password iff its type is "password" and the
      toggle is not currently revealing it. */
  lemma MaskedIff(p: Props, st: State)
    ensures EffectiveType(p, st) == "password"
        <==> TypeOf(p) == "password" && !(TruthyFlag(p.passwordToggle) && st.showPassword)
  {
  }

  /** The visibility flag affects the input type exactly when the toggle
      button is shown. */
  lemma ToggleMattersIffShown(p: Props, st: State)
    ensures EffectiveType(p, TogglePassword(st)) != EffectiveType(p, st) <==> ShowToggle(p)
  {
  }

  // ---------------------------------------------------------------------
  // Interaction sequences
  // ---------------------------------------------------------------------

  /** A user interaction with the field. A click only reaches a button that is
      rendered in the current state. */
  datatype InputEvent = Typed(v: string) | ClearClick | ToggleClick

  /** One interaction: typing stores the value, and a click on the clear or
      toggle button acts only while that button is rendered. */
  function Step(p: Props, st: State, e: InputEvent): (st': State)
    ensures e.Typed? ==> st'.value == e.v && st'.showPassword == st.showPassword
    ensures e.ClearClick? ==> st'.showPassword == st.showPassword
    ensures e.ClearClick? ==> (ShowClear(p, st) ==> st'.value == "") && (!ShowClear(p, st) ==> st' == st)
    ensures e.ToggleClick? ==> st'.value == st.value
    ensures e.ToggleClick? ==> (st'.showPassword != st.showPassword <==> ShowToggle(p))
  {
    match e
    case Typed(v) => HandleChange(p, st, v).state
    case ClearClick => if ShowClear(p, st) then Clear(st) else st
    case ToggleClick => if ShowToggle(p) then TogglePassword(st) else st
  }

  /** The state after a run of interactions. The password is revealed iff the
      toggle is shown and was clicked an odd number of times (from hidden);
      typing and clearing never touch the flag. */
  function Run(p: Props, st: State, events: seq<InputEvent>): (st': State)
    ensures st'.showPassword
         == if ShowToggle(p) then (st.showPassword != (ToggleClicks(events) % 2 == 1)) else st.showPassword
    decreases |events|
  {
    if |events| == 0 then st else Run(p, Step(p, st, events[0]), events[1..])
  }

  function ToggleClicks(events: seq<InputEvent>): nat {
    if |events| == 0 then 0 else (if events[0].ToggleClick? then 1 else 0) + ToggleClicks(events[1..])
  }

  /** The internal value an uncontrolled field holds after a run: the last
      typed value, or "" when a clear came after it and the field is
      clearable (otherwise there is no clear button to click). */
  function LastValue(clearable: bool, start: string, events: seq<InputEvent>): string
    decreases |events|
  {
    if |events| == 0 then start
    else
      var earlier := LastValue(clearable, start, events[..|events| - 1]);
      match events[|events| - 1]
      case Typed(v) => v
      case ClearClick => if clearable then "" else earlier
      case ToggleClick => earlier
  }

  lemma {:induction false} RunAppend(p: Props, st: State, events: seq<InputEvent>, e: InputEvent)
    ensures Run(p, st, events + [e]) == Step(p, Run(p, st, events), e)
    decreases |events|
  {
    if |events| == 0 {
      assert events + [e] == [e];
      assert [e][1..] == [];
    } else {
      assert (events + [e])[1..] == events[1..] + [e];
      RunAppend(p, Step(p, st, events[0]), events[1..], e);
    }
  }

  /** In an uncontrolled field the internal value after a run is the last
      typed value, or "" when a clear followed it. */
  lemma {:induction false} UncontrolledValue(p: Props, st: State, events: seq<InputEvent>)
    requires p.value.None?
    ensures Run(p, st, events).value == LastValue(TruthyFlag(p.clearable), st.value, events)
    decreases |events|
  {
    if |events| > 0 {
      var front := events[..|events| - 1];
      var last := events[|events| - 1];
      assert events == front + [last];
      UncontrolledValue(p, st, front);
      RunAppend(p, st, front, last);
    }
  }
}
