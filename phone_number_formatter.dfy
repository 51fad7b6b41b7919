/**
 * PhoneNumberKit's `PhoneNumber` value and its `Formatter`: the national number laid out by
 * the first format of its territory that fits, and the E.164, international and national
 * renderings built on it.
 */
module NumberFormatter {
  import opened Wrappers
  import opened PhoneConstants
  import opened PhoneRegex
  import opened PhoneMetadata
  import Decimal
  import PhoneParser

  /** Swift's `UInt64`. */
  type UInt64 = n: nat | n < Decimal.UInt64Limit

  /** `PhoneNumber`: its country code, leading zero flag, national number, extension and raw text. */
  datatype PhoneNumber = PhoneNumber(
    countryCode: UInt64,
    leadingZero: bool,
    nationalNumber: UInt64,
    numberExtension: Option<string>,
    rawNumber: string)

  /** A leading zero does not change the value of a digit string. */
  lemma {:induction false} LeadingZeroValue(s: string)
    requires forall k :: 0 <= k < |s| ==> Decimal.IsDigit(s[k])
    ensures Decimal.DigitsValue("0" + s) == Decimal.DigitsValue(s)
  {
    if s != [] {
      assert ("0" + s)[..|"0" + s| - 1] == "0" + s[..|s| - 1];
      LeadingZeroValue(s[..|s| - 1]);
    } else {
      assert ("0" + s)[..0] == [];
    }
  }

  /**
   * `adjustedNationalNumber`: the decimal national number, behind a "0" exactly when the
   * number has a leading zero; it parses back to the national number.
   */
  function AdjustedNationalNumber(p: PhoneNumber): (s: string)
    ensures forall k :: 0 <= k < |s| ==> Decimal.IsDigit(s[k])
    ensures p.leadingZero <==> |s| > 1 && s[0] == '0'
    ensures Decimal.ParseUInt64(s) == Some(p.nationalNumber as nat)
  {
    var digits := Decimal.NatToString(p.nationalNumber);
    Decimal.ParseNatToString(p.nationalNumber);
    if p.leadingZero then
      LeadingZeroValue(digits);
      assert ("0" + digits)[1..] == digits;
      "0" + digits
    else digits
  }

  /** `toE164(prefix:)`: "+", the country code and the adjusted national number; without the prefix the number alone. */
  function ToE164(p: PhoneNumber, prefix: bool): (s: string)
    ensures !prefix ==> s == AdjustedNationalNumber(p)
    ensures prefix ==> |s| > 0 && s[0] == '+' && s[1..] == Decimal.NatToString(p.countryCode) + AdjustedNationalNumber(p)
  {
    if !prefix then AdjustedNationalNumber(p)
    else "+" + Decimal.NatToString(p.countryCode) + AdjustedNationalNumber(p)
  }

  /** The digits of a code of less than 1000 are at most three. */
  lemma ShortCodeDigits(c: nat)
    requires c < 1000
    ensures |Decimal.NatToString(c)| <= MaxLengthCountryCode
  {
    if c >= 10 {
      var tens := c / 10;
      assert tens < 100;
      assert |Decimal.NatToString(c)| == |Decimal.NatToString(tens)| + 1;
      if tens >= 10 {
        var hundreds := tens / 10;
        assert hundreds < 10;
        assert |Decimal.NatToString(tens)| == |Decimal.NatToString(hundreds)| + 1;
      }
    }
  }

  /**
   * The E.164 text parses back: when the country code has metadata, has at most three digits
   * and no shorter run of its digits is itself a known code, extracting the potential country
   * code from the E.164 text gives the code and the adjusted national number.
   */
  lemma E164RoundTrip(p: PhoneNumber, national: string, perCode: map<nat, Territory>)
    requires p.countryCode in perCode && p.countryCode < 1000
    requires var d := Decimal.NatToString(p.countryCode);
             forall k :: 1 <= k < |d| ==> !(Decimal.ParseUInt64(d[..k]).Some? && Decimal.ParseUInt64(d[..k]).value in perCode)
    ensures PhoneParser.PotentialCountryCode(ToE164(p, true), national, perCode) == (p.countryCode as nat, AdjustedNationalNumber(p))
  {
    var d := Decimal.NatToString(p.countryCode);
    var a := AdjustedNationalNumber(p);
    var f := ToE164(p, true);
    ShortCodeDigits(p.countryCode);
    assert f == "+" + d + a;
    assert f[1..1 + |d|] == d;
    assert f[1 + |d|..] == a;
    Decimal.ParseNatToString(p.countryCode);
    assert PhoneParser.KnownCodeAt(f, 1, |d|, perCode);
    forall j | 1 <= j < |d|
      ensures !PhoneParser.KnownCodeAt(f, 1, j, perCode)
    {
      assert f[1..1 + j] == d[..j];
    }
    ShortestIsFirstKnown(f, 1, 1, |d|, perCode);
  }

  /** The search answers the first known length. */
  lemma {:induction false} ShortestIsFirstKnown(f: string, start: nat, i: nat, k: nat, perCode: map<nat, Territory>)
    requires 1 <= i <= k <= MaxLengthCountryCode
    requires PhoneParser.KnownCodeAt(f, start, k, perCode)
    requires forall j :: i <= j < k ==> !PhoneParser.KnownCodeAt(f, start, j, perCode)
    ensures PhoneParser.ShortestFrom(f, start, i, perCode) == Some(k)
    decreases k - i
  {
    if i < k {
      ShortestIsFirstKnown(f, start, i + 1, k, perCode);
    }
  }

  /** `formatExtension`: nil without an extension, else the preferred prefix (or " ext. ") and the extension. */
  function FormatExtension(numberExtension: Option<string>, t: Territory): (r: Option<string>)
    ensures numberExtension.None? <==> r.None?
    ensures numberExtension.Some? && t.preferredExtnPrefix.Some? ==> r == Some(t.preferredExtnPrefix.value + numberExtension.value)
    ensures numberExtension.Some? && t.preferredExtnPrefix.None? ==> r == Some(DefaultExtnPrefix + numberExtension.value)
  {
    match numberExtension
    case None => None
    case Some(extns) =>
      match t.preferredExtnPrefix
      case Some(preferredExtnPrefix) => Some(preferredExtnPrefix + extns)
      case None => Some(DefaultExtnPrefix + extns)
  }

  /**
   * A format fits the national number when its pattern matches it entirely and, when it has
   * leading-digits patterns, the last of them matches at the start.
   */
  predicate Eligible(e: Engine, nationalNumber: string, f: Format) {
    if |f.leadingDigitsPatterns| > 0 then
      StringPositionByRegex(e, f.leadingDigitsPatterns[|f.leadingDigitsPatterns| - 1], nationalNumber) == 0
      && MatchesEntirely(e, f.pattern, nationalNumber)
    else MatchesEntirely(e, f.pattern, nationalNumber)
  }

  /** The index of the first format that fits, from `from` on. */
  function FirstEligibleFrom(e: Engine, nationalNumber: string, formats: seq<Format>, from: nat): (r: Option<nat>)
    requires from <= |formats|
    ensures r.Some? ==> from <= r.value < |formats| && Eligible(e, nationalNumber, formats[r.value])
    ensures r.Some? ==> forall j :: from <= j < r.value ==> !Eligible(e, nationalNumber, formats[j])
    ensures r.None? ==> forall j :: from <= j < |formats| ==> !Eligible(e, nationalNumber, formats[j])
    decreases |formats| - from
  {
    if from == |formats| then None
    else if Eligible(e, nationalNumber, formats[from]) then Some(from)
    else FirstEligibleFrom(e, nationalNumber, formats, from + 1)
  }

  /** The national prefix formatting rule with `$NP` and `$FG` filled in, or "" without a rule or prefix. */
  function PrefixFormattingRule(e: Engine, f: Format, t: Territory): string {
    if f.nationalPrefixFormattingRule.Some? && t.nationalPrefix.Some? then
      var withPrefix := ReplaceStringByRegex(e, NpPattern, f.nationalPrefixFormattingRule.value, t.nationalPrefix.value);
      ReplaceStringByRegex(e, FgPattern, withPrefix, "\\$1")
    else ""
  }

  /** The rule the number is laid out with: the international one when asked for and present, else the plain one. */
  function NumberFormatRule(f: Format, formatType: PhoneNumberFormat): (r: Option<string>)
    ensures formatType == International && f.intlFormat.Some? ==> r == f.intlFormat
    ensures !(formatType == International && f.intlFormat.Some?) ==> r == f.format
  {
    if formatType == International && f.intlFormat.Some? then f.intlFormat else f.format
  }

  /**
   * The selected format applied: unchanged without a rule or pattern; in national form with
   * a non-blank prefix rule, the rule's first group reference is replaced by the prefix rule
   * first; otherwise the rule itself is the template.
   */
  function ApplyFormat(e: Engine, nationalNumber: string, f: Format, t: Territory, formatType: PhoneNumberFormat): (r: string)
    ensures NumberFormatRule(f, formatType).None? || f.pattern.None? ==> r == nationalNumber
    ensures NumberFormatRule(f, formatType).Some? && f.pattern.Some? ==>
              var rule := NumberFormatRule(f, formatType).value;
              var prefixRule := PrefixFormattingRule(e, f, t);
              r == ReplaceStringByRegex(e, f.pattern.value, nationalNumber,
                     if formatType == National && HasValue(Some(prefixRule)) then ReplaceFirstStringByRegex(e, FirstGroupPattern, rule, prefixRule) else rule)
  {
    var numberFormatRule := NumberFormatRule(f, formatType);
    if numberFormatRule.None? || f.pattern.None? then nationalNumber
    else
      var prefixFormattingRule := PrefixFormattingRule(e, f, t);
      if formatType == National && HasValue(Some(prefixFormattingRule)) then
        var replacePattern := ReplaceFirstStringByRegex(e, FirstGroupPattern, numberFormatRule.value, prefixFormattingRule);
        ReplaceStringByRegex(e, f.pattern.value, nationalNumber, replacePattern)
      else ReplaceStringByRegex(e, f.pattern.value, nationalNumber, numberFormatRule.value)
  }

  /** What `formatNationalNumber` produces: the first format that fits applied, or the number unchanged. */
  function FormattedNationalNumber(e: Engine, nationalNumber: string, t: Territory, formatType: PhoneNumberFormat): string {
    match FirstEligibleFrom(e, nationalNumber, t.numberFormats, 0)
    case Some(k) => ApplyFormat(e, nationalNumber, t.numberFormats[k], t, formatType)
    case None => nationalNumber
  }

  /**
   * The first format that fits is used, and formats before it play no part; with no format
   * that fits, or one lacking a rule or a pattern, the number is returned unchanged.
   */
  lemma FormattedNationalNumberSpec(e: Engine, nationalNumber: string, t: Territory, formatType: PhoneNumberFormat)
    ensures (forall j :: 0 <= j < |t.numberFormats| ==> !Eligible(e, nationalNumber, t.numberFormats[j])) ==>
              FormattedNationalNumber(e, nationalNumber, t, formatType) == nationalNumber
    ensures forall k :: 0 <= k < |t.numberFormats| && Eligible(e, nationalNumber, t.numberFormats[k])
                        && (forall j :: 0 <= j < k ==> !Eligible(e, nationalNumber, t.numberFormats[j])) ==>
              FormattedNationalNumber(e, nationalNumber, t, formatType) == ApplyFormat(e, nationalNumber, t.numberFormats[k], t, formatType)
  {
    var r := FirstEligibleFrom(e, nationalNumber, t.numberFormats, 0);
    if r.Some? {
      assert Eligible(e, nationalNumber, t.numberFormats[r.value]);
    }
  }

  /** `formatNationalNumber`: the formats are tried in order and the first that fits is applied. */
  method FormatNationalNumber(e: Engine, nationalNumber: string, t: Territory, formatType: PhoneNumberFormat) returns (r: string)
    ensures r == FormattedNationalNumber(e, nationalNumber, t, formatType)
  {
    var formats := t.numberFormats;
    var selectedFormat: Option<Format> := None;
    var i := 0;
    while i < |formats|
      invariant 0 <= i <= |formats|
      invariant selectedFormat.None?
      invariant FirstEligibleFrom(e, nationalNumber, formats, 0) == FirstEligibleFrom(e, nationalNumber, formats, i)
    {
      var format := formats[i];
      if |format.leadingDigitsPatterns| > 0 {
        var leadingDigitPattern := format.leadingDigitsPatterns[|format.leadingDigitsPatterns| - 1];
        if StringPositionByRegex(e, leadingDigitPattern, nationalNumber) == 0 {
          if MatchesEntirely(e, format.pattern, nationalNumber) {
            selectedFormat := Some(format);
            break;
          }
        }
      } else {
        if MatchesEntirely(e, format.pattern, nationalNumber) {
          selectedFormat := Some(format);
          break;
        }
      }
      i := i + 1;
    }
    match selectedFormat
    case Some(formatPattern) =>
      r := ApplyFormat(e, nationalNumber, formatPattern, t, formatType);
    case None =>
      r := nationalNumber;
  }

  /**
   * What `formatPhoneNumber` produces: the adjusted national number; when its country code has
   * metadata, formatted by that territory and followed by the formatted extension.
   */
  function FormattedPhoneNumber(e: Engine, p: PhoneNumber, perCode: map<nat, Territory>, formatType: PhoneNumberFormat): (r: string)
    ensures p.countryCode as nat !in perCode ==> r == AdjustedNationalNumber(p)
    ensures p.countryCode as nat in perCode ==>
              var t := perCode[p.countryCode as nat];
              var formatted := FormattedNationalNumber(e, AdjustedNationalNumber(p), t, formatType);
              r == formatted + (match FormatExtension(p.numberExtension, t) case Some(x) => x case None => "")
  {
    var adjusted := AdjustedNationalNumber(p);
    if p.countryCode as nat in perCode then
      var regionMetadata := perCode[p.countryCode as nat];
      var formatted := FormattedNationalNumber(e, adjusted, regionMetadata, formatType);
      match FormatExtension(p.numberExtension, regionMetadata)
      case Some(formattedExtension) => formatted + formattedExtension
      case None => formatted
    else adjusted
  }

  /** The extension shows only when the country code has metadata, and then at the end. */
  lemma ExtensionOnlyWithMetadata(e: Engine, p: PhoneNumber, perCode: map<nat, Territory>, formatType: PhoneNumberFormat)
    requires p.numberExtension.Some?
    ensures p.countryCode as nat in perCode ==>
              var r := FormattedPhoneNumber(e, p, perCode, formatType);
              var x := FormatExtension(p.numberExtension, perCode[p.countryCode as nat]).value;
              |x| <= |r| && r[|r| - |x|..] == x
    ensures p.countryCode as nat !in perCode ==> FormattedPhoneNumber(e, p, perCode, formatType) == AdjustedNationalNumber(p)
  {
  }

  /** `formatPhoneNumber(_:formatType:)`. */
  method FormatPhoneNumber(e: Engine, p: PhoneNumber, perCode: map<nat, Territory>, formatType: PhoneNumberFormat) returns (r: string)
    ensures r == FormattedPhoneNumber(e, p, perCode, formatType)
  {
    r := AdjustedNationalNumber(p);
    if p.countryCode as nat in perCode {
      var regionMetadata := perCode[p.countryCode as nat];
      r := FormatNationalNumber(e, r, regionMetadata, formatType);
      var formattedExtension := FormatExtension(p.numberExtension, regionMetadata);
      if formattedExtension.Some? {
        r := r + formattedExtension.value;
      }
    }
  }

  /** `toInternational(prefix:)`: "+", the country code, a space and the number in international form. */
  method ToInternational(e: Engine, p: PhoneNumber, perCode: map<nat, Territory>, prefix: bool) returns (r: string)
    ensures !prefix ==> r == FormattedPhoneNumber(e, p, perCode, International)
    ensures prefix ==> r == "+" + Decimal.NatToString(p.countryCode) + " " + FormattedPhoneNumber(e, p, perCode, International)
  {
    var formattedNationalNumber := FormatPhoneNumber(e, p, perCode, International);
    if !prefix {
      return formattedNationalNumber;
    }
    r := "+" + Decimal.NatToString(p.countryCode) + " " + formattedNationalNumber;
  }

  /** `toNational()`: the number in national form, without a country code. */
  method ToNational(e: Engine, p: PhoneNumber, perCode: map<nat, Territory>) returns (r: string)
    ensures r == FormattedPhoneNumber(e, p, perCode, National)
  {
    r := FormatPhoneNumber(e, p, perCode, National);
  }

  /** The international text starts with the E.164 country prefix and a space. */
  lemma InternationalPrefix(p: PhoneNumber, formatted: string)
    ensures var head := "+" + Decimal.NatToString(p.countryCode);
            var r := head + " " + formatted;
            r[..|head|] == ToE164(p, true)[..|head|] && r[|head|] == ' '
  {
    var head := "+" + Decimal.NatToString(p.countryCode);
    assert ToE164(p, true) == head + AdjustedNationalNumber(p);
    assert (head + AdjustedNationalNumber(p))[..|head|] == head;
    assert (head + " " + formatted)[..|head|] == head;
  }
}
