/**
 * The enumerations and constants PhoneNumberKit's parser and formatters share.
 */
module PhoneConstants {

  /** `PhoneNumberError`. */
  datatype PhoneNumberError = GeneralError | InvalidCountryCode | NotANumber | TooLong | TooShort

  /** `PhoneNumberCountryCodeSource`: where the country code of a number came from. */
  datatype CountryCodeSource = NumberWithPlusSign | NumberWithIDD | NumberWithoutPlusSign | DefaultCountry

  /** `PhoneNumberFormat`. */
  datatype PhoneNumberFormat = E164 | International | National

  /** `PhoneNumberType`. */
  datatype PhoneNumberType =
    | FixedLine | Mobile | FixedOrMobile | Pager | PersonalNumber | PremiumRate
    | SharedCost | TollFree | Voicemail | VOIP | UAN | Unknown

  // `PhoneNumberConstants`.
  const DefaultCountry: string := "US"
  const DefaultExtnPrefix: string := " ext. "
  const LongPhoneNumber: string := "999999999999999"
  const MinLengthForNSN: nat := 2
  const MaxLengthCountryCode: nat := 3
  const NonBreakingSpace: char := '\U{00A0}'
  const DigitPlaceholder: char := '\U{2008}'
  const SeparatorBeforeNationalNumber: char := ' '

  // The patterns used by the modelled steps (`PhoneNumberPatterns`).
  const FirstGroupPattern: string := "(\\$\\d)"
  const FgPattern: string := "\\$FG"
  const NpPattern: string := "\\$NP"
  const CapturingDigitPattern: string := "([0-9\U{FF10}-\U{FF19}\U{0660}-\U{0669}\U{06F0}-\U{06F9}])"
  const CharacterClassPattern: string := "\\[([^\\[\\]])*\\]"
  const StandaloneDigitPattern: string := "\\d(?=[^,}][^,}])"
  const PrefixSeparatorPattern: string := "[- ]"
  const EligibleAsYouTypePattern: string := "^[-x\U{2010}-\U{2015}\U{2212}\U{30FC}\U{FF0D}-\U{FF0F} \U{00AD}\U{200B}\U{2060}\U{3000}()\U{FF08}\U{FF09}\U{FF3B}\U{FF3D}.\\[\\]/~\U{2053}\U{223C}\U{FF5E}]*(\\$\\d[-x\U{2010}-\U{2015}\U{2212}\U{30FC}\U{FF0D}-\U{FF0F} \U{00AD}\U{200B}\U{2060}\U{3000}()\U{FF08}\U{FF09}\U{FF3B}\U{FF3D}.\\[\\]/~\U{2053}\U{223C}\U{FF5E}]*)+$"
  const LeadingPlusCharsPattern: string := "^[+\U{FF0B}]+"
  const ValidStartPattern: string := "[+\U{FF0B}0-9\U{FF10}-\U{FF19}\U{0660}-\U{0669}\U{06F0}-\U{06F9}]"
  const ValidPhoneNumberPattern: string := "^[0-9\U{FF10}-\U{FF19}\U{0660}-\U{0669}\U{06F0}-\U{06F9}]{2}$|^[+\U{FF0B}]*(?:[-x\U{2010}-\U{2015}\U{2212}\U{30FC}\U{FF0D}-\U{FF0F} \U{00A0}\U{00AD}\U{200B}\U{2060}\U{3000}()\U{FF08}\U{FF09}\U{FF3B}\U{FF3D}.\\[\\]/~\U{2053}\U{223C}\U{FF5E}*]*[0-9\U{FF10}-\U{FF19}\U{0660}-\U{0669}\U{06F0}-\U{06F9}]){3,}[-x\U{2010}-\U{2015}\U{2212}\U{30FC}\U{FF0D}-\U{FF0F} \U{00A0}\U{00AD}\U{200B}\U{2060}\U{3000}()\U{FF08}\U{FF09}\U{FF3B}\U{FF3D}.\\[\\]/~\U{2053}\U{223C}\U{FF5E}*A-Za-z0-9\U{FF10}-\U{FF19}\U{0660}-\U{0669}\U{06F0}-\U{06F9}]*(?:(?:;ext=([0-9\U{FF10}-\U{FF19}\U{0660}-\U{0669}\U{06F0}-\U{06F9}]{1,7})|[  \\t,]*(?:e?xt(?:ensi(?:o\U{0301}?|\U{00F3}))?n?|\U{FF45}?\U{FF58}\U{FF54}\U{FF4E}?|[,x\U{FF58}X#\U{FF03}~\U{FF5E}]|int|anexo|\U{FF49}\U{FF4E}\U{FF54})[:\\.\U{FF0E}]?[  \\t,-]*([0-9\U{FF10}-\U{FF19}\U{0660}-\U{0669}\U{06F0}-\U{06F9}]{1,7})#?|[- ]+([0-9\U{FF10}-\U{FF19}\U{0660}-\U{0669}\U{06F0}-\U{06F9}]{1,5})#)?$)?$"

  /** `iddPattern` `^(?:\+|%@)` with the international prefix in place of `%@`. */
  function IddPattern(internationalPrefix: string): string {
    "^(?:\\+|" + internationalPrefix + ")"
  }

  /** `formatPattern` `^(?:%@)$` with a pattern in place of `%@`. */
  function FormatPattern(pattern: string): string {
    "^(?:" + pattern + ")$"
  }

  /** `nationalPrefixParsingPattern` `^(?:%@)` with a prefix in place of `%@`. */
  function NationalPrefixParsingPattern(prefix: string): string {
    "^(?:" + prefix + ")"
  }
}
