/**
 * The option sets of the form view controller: `RowNavigationOptions` and
 * `InlineRowHideOptions`. As Swift `OptionSet`s they are raw bit patterns; `contains(m)`
 * holds when every bit of `m` is set, so the zero members (`Disabled`, `Never`) are
 * contained in every set.
 */
module Options {
  type Bits = bv64

  /** `OptionSet.contains`. */
  function Contains(s: Bits, member: Bits): bool {
    s & member == member
  }

  /** `OptionSet.union`. */
  function Union(a: Bits, b: Bits): (r: Bits)
    ensures forall m :: Contains(a, m) ==> Contains(r, m)
    ensures forall m :: Contains(b, m) ==> Contains(r, m)
  {
    a | b
  }

  // RowNavigationOptions raw values.
  const NavigationDisabled: Bits := 0
  const NavigationEnabled: Bits := 1
  const StopDisabledRow: Bits := 2
  const SkipCanNotBecomeFirstResponderRow: Bits := 4

  /** `Form.defaultNavigationOptions`. */
  const DefaultNavigationOptions: Bits := NavigationEnabled | SkipCanNotBecomeFirstResponderRow

  // InlineRowHideOptions raw values.
  const InlineNever: Bits := 0
  const AnotherInlineRowIsShown: Bits := 1
  const FirstResponderChanges: Bits := 2

  /** `Form.defaultInlineRowHideOptions`. */
  const DefaultInlineRowHideOptions: Bits := FirstResponderChanges | AnotherInlineRowIsShown

  /** The options in effect: the configured set, else the default (`options ?? default`). */
  function InEffect(configured: bool, options: Bits, default: Bits): Bits {
    if configured then options else default
  }

  /** The zero members are in every set; the defaults hold exactly the members named. */
  lemma OptionFacts(s: Bits)
    ensures Contains(s, NavigationDisabled) && Contains(s, InlineNever)
    ensures Contains(DefaultNavigationOptions, NavigationEnabled)
    ensures Contains(DefaultNavigationOptions, SkipCanNotBecomeFirstResponderRow)
    ensures !Contains(DefaultNavigationOptions, StopDisabledRow)
    ensures Contains(DefaultInlineRowHideOptions, AnotherInlineRowIsShown)
    ensures Contains(DefaultInlineRowHideOptions, FirstResponderChanges)
  {
  }
}
