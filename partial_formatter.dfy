/**
 * PhoneNumberKit's `PartialFormatter`: the as-you-type formatting of an incomplete number.
 * The number is split into a prefix (international dialling prefix, country code, national
 * prefix) and a national number, which is laid out by an available format or by a template
 * of digit placeholders.
 */
module PartialFormatting {
  import opened Wrappers
  import opened PhoneConstants
  import opened PhoneRegex
  import opened PhoneMetadata
  import Decimal
  import PhoneParser
  import PhoneFormatting

  /** `validPartialPattern`: digits and white space behind an optional plus sign, or a valid phone number. */
  const ValidPartialPattern: string := "[+\U{FF0B}]?(\\s*\\d)+\\s*$|" + ValidPhoneNumberPattern

  /** `isValidRawNumber`: the partial pattern matches somewhere and the number starts with a valid character. */
  function IsValidRawNumber(e: Engine, rawNumber: string): (b: bool)
    ensures b <==> e.compiles(ValidPartialPattern) && e.matches(ValidPartialPattern, rawNumber) != []
                   && StringPositionByRegex(e, ValidStartPattern, rawNumber) == 0
  {
    match RegexMatches(e, ValidPartialPattern, rawNumber)
    case Failure(_) => false
    case Success(validNumberMatches) =>
      var validStart := StringPositionByRegex(e, ValidStartPattern, rawNumber);
      !(|validNumberMatches| == 0 || validStart != 0)
  }

  /** The metadata for a default region: the main territory of the region's country code. */
  function DefaultMetadataFor(items: seq<Territory>, region: string): (r: Option<Territory>)
    ensures r.None? <==> forall k :: 0 <= k < |items| ==> items[k].codeID != UpperCase(region)
    ensures r.Some? ==> r.value in items
    ensures r.Some? ==> r.value.countryCode == FetchMetadataForCountry(items, region).value.countryCode
  {
    match FetchMetadataForCountry(items, region)
    case Some(regionMetadata) =>
      assert regionMetadata in items;
      FetchMainCountryMetadataForCode(items, regionMetadata.countryCode)
    case None => None
  }

  // The national prefix.

  /**
   * `isNanpaNumberWithNationalPrefix` as intended: a territory of country code 1 and a number
   * that starts with "1" followed by a digit other than "0" and "1".
   */
  function IsNanpaNumberWithNationalPrefix(current: Option<Territory>, rawNumber: string): (b: bool)
    ensures b <==> current.Some? && current.value.countryCode == 1 && |rawNumber| >= 2
                   && rawNumber[0] == '1' && rawNumber[1] != '0' && rawNumber[1] != '1'
  {
    if current.None? || current.value.countryCode != 1 then false
    else |rawNumber| >= 2 && rawNumber[0] == '1' && rawNumber[1] != '0' && rawNumber[1] != '1'
  }

  /**
   * `isNanpaNumberWithNationalPrefix` as written: the second character is checked by turning a
   * string index (not the character at it) into text. That text, `indexText`, is whatever the
   * runtime prints for the index; it does not depend on the character at the index, so only the
   * country code, the first character and `indexText` count.
   */
  function IsNanpaNumberWithNationalPrefixAsWritten(current: Option<Territory>, rawNumber: string, indexText: string): bool {
    if current.None? || current.value.countryCode != 1 then false
    else |rawNumber| >= 1 && rawNumber[0] == '1' && indexText != "0" && indexText != "1"
  }

  /**
   * When the index prints as anything but "0" or "1", "10" counts as a NANPA number with
   * national prefix as written; as intended it does not.
   */
  lemma NanpaAsWrittenIgnoresSecondDigit(t: Territory, indexText: string)
    requires t.countryCode == 1 && indexText != "0" && indexText != "1"
    ensures IsNanpaNumberWithNationalPrefixAsWritten(Some(t), "10", indexText)
    ensures !IsNanpaNumberWithNationalPrefix(Some(t), "10")
  {
  }

  /**
   * When the index prints as "0" or "1" (its offset), no number counts as a NANPA number with
   * national prefix as written; as intended "16502530000" does.
   */
  lemma NanpaAsWrittenNeverHolds(t: Territory, indexText: string, rawNumber: string)
    requires t.countryCode == 1 && (indexText == "0" || indexText == "1")
    ensures !IsNanpaNumberWithNationalPrefixAsWritten(Some(t), rawNumber, indexText)
    ensures IsNanpaNumberWithNationalPrefix(Some(t), "16502530000")
  {
  }

  /** Whatever the index prints as, the test as written and the test as intended disagree on some number. */
  lemma NanpaAsWrittenDisagrees(t: Territory, indexText: string)
    requires t.countryCode == 1
    ensures var n := if indexText == "0" || indexText == "1" then "16502530000" else "10";
            IsNanpaNumberWithNationalPrefixAsWritten(Some(t), n, indexText) != IsNanpaNumberWithNationalPrefix(Some(t), n)
  {
  }

  /**
   * The part of the number the national prefix for parsing matches at its start: none
   * without metadata, without such a prefix, or when its pattern does not compile.
   */
  function ParsingPrefixLength(e: Engine, current: Option<Territory>, rawNumber: string): (n: nat)
    ensures n <= |rawNumber|
  {
    if current.None? || current.value.nationalPrefixForParsing.None? then 0
    else
      var nationalPrefixPattern := NationalPrefixParsingPattern(current.value.nationalPrefixForParsing.value);
      var matches := MatchedStringByRegex(e, nationalPrefixPattern, rawNumber);
      if matches == [] then 0 else |matches[0]|
  }

  /**
   * `extractNationalPrefix` as intended: what it adds to the prefix and the national number
   * left. A NANPA number gives up its "1", shown as "1 "; otherwise the text the national
   * prefix for parsing matches moves to the prefix.
   */
  function NationalPrefixSplit(e: Engine, current: Option<Territory>, rawNumber: string): (r: (string, string))
    ensures IsNanpaNumberWithNationalPrefix(current, rawNumber) ==> r.0 == "1 " && "1" + r.1 == rawNumber
    ensures !IsNanpaNumberWithNationalPrefix(current, rawNumber) ==> r.0 + r.1 == rawNumber
  {
    if IsNanpaNumberWithNationalPrefix(current, rawNumber) then
      assert "1" + rawNumber[1..] == rawNumber;
      ("1 ", rawNumber[1..])
    else
      var startOfNationalNumber := ParsingPrefixLength(e, current, rawNumber);
      assert rawNumber[..startOfNationalNumber] + rawNumber[startOfNationalNumber..] == rawNumber;
      (rawNumber[..startOfNationalNumber], rawNumber[startOfNationalNumber..])
  }

  /**
   * `extractNationalPrefix` as written: for a NANPA number "1 " is added to the prefix but the
   * start of the national number stays 0, so the "1" is kept in the national number too.
   */
  function NationalPrefixSplitAsWritten(e: Engine, current: Option<Territory>, rawNumber: string, indexText: string): (string, string) {
    if IsNanpaNumberWithNationalPrefixAsWritten(current, rawNumber, indexText) then ("1 ", rawNumber)
    else
      var startOfNationalNumber := ParsingPrefixLength(e, current, rawNumber);
      (rawNumber[..startOfNationalNumber], rawNumber[startOfNationalNumber..])
  }

  /**
   * For "16502530000" in a territory of code 1, with an index that does not print as "0" or
   * "1", the "1" is shown twice as written and once as intended.
   */
  lemma NationalPrefixKeptAsWritten(e: Engine, t: Territory, indexText: string)
    requires t.countryCode == 1 && indexText != "0" && indexText != "1"
    ensures NationalPrefixSplitAsWritten(e, Some(t), "16502530000", indexText) == ("1 ", "16502530000")
    ensures NationalPrefixSplit(e, Some(t), "16502530000") == ("1 ", "6502530000")
  {
  }

  // Formats for the national number.

  /** `isFormatEligible`: the format's rule is made of group references and separators only. */
  predicate IsFormatEligible(e: Engine, f: Format) {
    f.format.Some? && e.compiles(EligibleAsYouTypePattern) && e.matches(EligibleAsYouTypePattern, f.format.value) != []
  }

  /** The last leading-digits pattern matches at the start, or without any the pattern matches entirely. */
  predicate LeadingDigitsFit(e: Engine, f: Format, rawNumber: string) {
    if |f.leadingDigitsPatterns| > 0 then
      StringPositionByRegex(e, f.leadingDigitsPatterns[|f.leadingDigitsPatterns| - 1], rawNumber) == 0
    else MatchesEntirely(e, f.pattern, rawNumber)
  }

  /** The eligible formats of `fs`, in order. */
  function EligibleFormats(e: Engine, fs: seq<Format>): (r: seq<Format>)
    ensures forall f :: f in r <==> f in fs && IsFormatEligible(e, f)
  {
    if fs == [] then []
    else EligibleFormats(e, fs[..|fs| - 1]) + (if IsFormatEligible(e, fs[|fs| - 1]) then [fs[|fs| - 1]] else [])
  }

  /** The eligible formats of `fs` whose leading digits fit the number, in order. */
  function PossibleFormats(e: Engine, fs: seq<Format>, rawNumber: string): (r: seq<Format>)
    ensures forall f :: f in r <==> f in fs && IsFormatEligible(e, f) && LeadingDigitsFit(e, f, rawNumber)
  {
    if fs == [] then []
    else
      var f := fs[|fs| - 1];
      PossibleFormats(e, fs[..|fs| - 1], rawNumber) + (if IsFormatEligible(e, f) && LeadingDigitsFit(e, f, rawNumber) then [f] else [])
  }

  /**
   * What `availableFormats` answers: nil without metadata; the eligible formats whose leading
   * digits fit, or all eligible formats when none fits.
   */
  function AvailableFormatsOf(e: Engine, current: Option<Territory>, rawNumber: string): (r: Option<seq<Format>>)
    ensures r.None? <==> current.None?
    ensures r.Some? ==> forall f :: f in r.value ==> f in current.value.numberFormats && IsFormatEligible(e, f)
    ensures r.Some? && (exists f :: f in r.value && !LeadingDigitsFit(e, f, rawNumber)) ==>
              forall f :: f in current.value.numberFormats && IsFormatEligible(e, f) ==> !LeadingDigitsFit(e, f, rawNumber)
  {
    if current.None? then None
    else
      var possibleFormats := PossibleFormats(e, current.value.numberFormats, rawNumber);
      if possibleFormats == [] then Some(EligibleFormats(e, current.value.numberFormats)) else Some(possibleFormats)
  }

  /**
   * A format `applyFormat` can use: it has a pattern and a rule, its anchored pattern compiles
   * and matches the number, and with a national prefix rule the separator pattern compiles.
   */
  predicate Applicable(e: Engine, f: Format, rawNumber: string) {
    && f.pattern.Some? && f.format.Some?
    && e.compiles(FormatPattern(f.pattern.value)) && e.matches(FormatPattern(f.pattern.value), rawNumber) != []
    && (f.nationalPrefixFormattingRule.Some? ==> e.compiles(PrefixSeparatorPattern))
  }

  /** The format's national prefix rule holds a separator, which asks for a space after the prefix. */
  predicate RuleHasSeparator(e: Engine, f: Format) {
    f.nationalPrefixFormattingRule.Some? && e.matches(PrefixSeparatorPattern, f.nationalPrefixFormattingRule.value) != []
  }

  /** The position of the first applicable format from `from` on. */
  function FirstApplicable(e: Engine, formats: seq<Format>, rawNumber: string, from: nat): (r: Option<nat>)
    requires from <= |formats|
    ensures r.Some? ==> from <= r.value < |formats| && Applicable(e, formats[r.value], rawNumber)
    ensures r.Some? ==> forall j :: from <= j < r.value ==> !Applicable(e, formats[j], rawNumber)
    ensures r.None? ==> forall j :: from <= j < |formats| ==> !Applicable(e, formats[j], rawNumber)
    decreases |formats| - from
  {
    if from == |formats| then None
    else if Applicable(e, formats[from], rawNumber) then Some(from)
    else FirstApplicable(e, formats, rawNumber, from + 1)
  }

  // Templates.

  /**
   * `getFormattingTemplate`: the first match of the pattern in the longest number, laid out by
   * the rule with each "9" turned into a digit placeholder; nil when the pattern does not
   * compile or does not match, and when the match is shorter than the number.
   */
  function GetFormattingTemplate(e: Engine, numberPattern: string, numberFormat: string, rawNumber: string): (r: Option<string>)
    ensures r.Some? ==> var ms := MatchedStringByRegex(e, numberPattern, LongPhoneNumber);
                        ms != [] && |ms[0]| >= |rawNumber|
    ensures var ms := MatchedStringByRegex(e, numberPattern, LongPhoneNumber);
            ms != [] && |ms[0]| < |rawNumber| ==> r.None?
    ensures (e.compiles(numberPattern) && e.matches(numberPattern, LongPhoneNumber) != [] &&
             |Substring(LongPhoneNumber, e.matches(numberPattern, LongPhoneNumber)[0].range)| >= |rawNumber|) ==> r.Some?
  {
    var matches := MatchedStringByRegex(e, numberPattern, LongPhoneNumber);
    if matches == [] then None
    else
      var match0 := matches[0];
      if |match0| < |rawNumber| then None
      else
        var template := ReplaceStringByRegex(e, numberPattern, match0, numberFormat);
        Some(ReplaceStringByRegex(e, "9", template, [DigitPlaceholder]))
  }

  /** The number pattern with character classes and standalone digits rewritten to `\d`. */
  function SimplifiedPattern(e: Engine, numberPattern: string): Option<string> {
    if !e.compiles(CharacterClassPattern) then None
    else
      var withoutClasses := e.replaceAll(CharacterClassPattern, numberPattern, "\\\\d");
      if !e.compiles(StandaloneDigitPattern) then None
      else Some(e.replaceAll(StandaloneDigitPattern, withoutClasses, "\\\\d"))
  }

  /**
   * What `createFormattingTemplate` answers: nil without a pattern or a rule, for a pattern
   * with alternatives ("|"), when a rewriting pattern does not compile, and when no template
   * fits the number.
   */
  function FormattingTemplateOf(e: Engine, f: Format, rawNumber: string): (r: Option<string>)
    ensures f.pattern.None? || f.format.None? ==> r.None?
    ensures f.pattern.Some? && '|' in f.pattern.value ==> r.None?
    ensures r.Some? ==> SimplifiedPattern(e, f.pattern.value).Some?
                        && r == GetFormattingTemplate(e, SimplifiedPattern(e, f.pattern.value).value, f.format.value, rawNumber)
  {
    if f.pattern.None? || f.format.None? then None
    else if '|' in f.pattern.value then None
    else
      match SimplifiedPattern(e, f.pattern.value)
      case None => None
      case Some(numberPattern) =>
        var tempTemplate := GetFormattingTemplate(e, numberPattern, f.format.value, rawNumber);
        if tempTemplate.None? then None
        else if f.nationalPrefixFormattingRule.Some? && !e.compiles(PrefixSeparatorPattern) then None
        else tempTemplate
  }

  /** The position of the first format from `from` on that yields a template for the number. */
  function FirstTemplate(e: Engine, formats: seq<Format>, rawNumber: string, from: nat): (r: Option<nat>)
    requires from <= |formats|
    ensures r.Some? ==> from <= r.value < |formats| && FormattingTemplateOf(e, formats[r.value], rawNumber).Some?
    ensures r.Some? ==> forall j :: from <= j < r.value ==> FormattingTemplateOf(e, formats[j], rawNumber).None?
    ensures r.None? ==> forall j :: from <= j < |formats| ==> FormattingTemplateOf(e, formats[j], rawNumber).None?
    decreases |formats| - from
  {
    if from == |formats| then None
    else if FormattingTemplateOf(e, formats[from], rawNumber).Some? then Some(from)
    else FirstTemplate(e, formats, rawNumber, from + 1)
  }

  /**
   * One character of the template: a placeholder takes the next digit of the number, and any
   * other character is copied, as long as digits remain.
   */
  function FillStep(acc: (string, nat), character: char, rawNumber: string): (r: (string, nat))
    requires acc.1 <= |rawNumber|
    ensures r.1 <= |rawNumber|
  {
    var (rebuiltString, rebuiltIndex) := acc;
    if rebuiltIndex == |rawNumber| then acc
    else if character == DigitPlaceholder then (rebuiltString + [rawNumber[rebuiltIndex]], rebuiltIndex + 1)
    else (rebuiltString + [character], rebuiltIndex)
  }

  /** The template filled from the front: the text built and how many digits were used. */
  function Filled(template: string, rawNumber: string): (r: (string, nat))
    ensures r.1 <= |rawNumber|
  {
    if template == [] then ("", 0)
    else FillStep(Filled(template[..|template| - 1], rawNumber), template[|template| - 1], rawNumber)
  }

  /** Filling one more character of the template is one more step. */
  lemma FilledNext(template: string, k: nat, rawNumber: string)
    requires k < |template|
    ensures Filled(template[..k + 1], rawNumber) == FillStep(Filled(template[..k], rawNumber), template[k], rawNumber)
  {
    assert template[..k + 1][..k] == template[..k];
  }

  /** The number of digit placeholders in a template. */
  function PlaceholderCount(template: string): nat {
    if template == [] then 0
    else PlaceholderCount(template[..|template| - 1]) + (if template[|template| - 1] == DigitPlaceholder then 1 else 0)
  }

  /** The filled template followed by the digits it did not use. */
  function Untrimmed(template: string, rawNumber: string): string {
    Filled(template, rawNumber).0 + rawNumber[Filled(template, rawNumber).1..]
  }

  /** As many digits are used as the template has placeholders, but no more than there are. */
  lemma {:induction false} FilledUsesPlaceholders(template: string, rawNumber: string)
    ensures Filled(template, rawNumber).1 == if PlaceholderCount(template) < |rawNumber| then PlaceholderCount(template) else |rawNumber|
  {
    if template != [] {
      FilledUsesPlaceholders(template[..|template| - 1], rawNumber);
    }
  }

  /** Once the digits are used up, the rest of the template adds nothing. */
  lemma {:induction false} FilledStopsWhenUsedUp(template: string, rest: string, rawNumber: string)
    requires Filled(template, rawNumber).1 == |rawNumber|
    ensures Filled(template + rest, rawNumber) == Filled(template, rawNumber)
    decreases |rest|
  {
    if rest == [] {
      assert template + rest == template;
    } else {
      var shorter := rest[..|rest| - 1];
      assert (template + rest)[..|template + rest| - 1] == template + shorter;
      FilledStopsWhenUsedUp(template, shorter, rawNumber);
    }
  }

  /** A template without digits contributes no digits: the digits of the filled text are the digits used. */
  lemma {:induction false} FilledDigits(template: string, rawNumber: string)
    requires forall k :: 0 <= k < |rawNumber| ==> PhoneFormatting.IsDigit(rawNumber[k])
    requires forall k :: 0 <= k < |template| ==> !PhoneFormatting.IsDigit(template[k])
    ensures PhoneFormatting.Digits(Filled(template, rawNumber).0) == rawNumber[..Filled(template, rawNumber).1]
  {
    if template != [] {
      var init := template[..|template| - 1];
      FilledDigits(init, rawNumber);
      var (s, i) := Filled(init, rawNumber);
      var c := template[|template| - 1];
      if c == DigitPlaceholder && i < |rawNumber| {
        PhoneFormatting.DigitsAppend(s, [rawNumber[i]]);
        assert rawNumber[..i + 1] == rawNumber[..i] + [rawNumber[i]];
      } else if i < |rawNumber| {
        PhoneFormatting.DigitsAppend(s, [c]);
      }
    }
  }

  /** Dropping leading space characters keeps the digits. */
  lemma {:induction false} TrimLeadingKeepsDigits(s: string)
    ensures PhoneFormatting.Digits(TrimLeading(s)) == PhoneFormatting.Digits(s)
  {
    if s != [] && IsSpaceCharacter(s[0]) {
      TrimLeadingKeepsDigits(s[1..]);
      var head := [s[0]];
      assert s == head + s[1..];
      PhoneFormatting.DigitsAppend(head, s[1..]);
      assert head[..0] == [] && !PhoneFormatting.IsDigit(head[0]);
      assert PhoneFormatting.Digits(head) == [];
    }
  }

  /** Dropping trailing space characters keeps the digits. */
  lemma {:induction false} TrimTrailingKeepsDigits(s: string)
    ensures PhoneFormatting.Digits(TrimTrailing(s)) == PhoneFormatting.Digits(s)
  {
    if s != [] && IsSpaceCharacter(s[|s| - 1]) {
      TrimTrailingKeepsDigits(s[..|s| - 1]);
    }
  }

  /** Trimming removes only space characters, so it keeps the digits. */
  lemma TrimKeepsDigits(s: string)
    ensures PhoneFormatting.Digits(Trim(s)) == PhoneFormatting.Digits(s)
  {
    TrimLeadingKeepsDigits(s);
    TrimTrailingKeepsDigits(TrimLeading(s));
  }

  /**
   * For a number of digits and a template without digits, the digits of the result spell the
   * number exactly: none is dropped, repeated or moved.
   */
  lemma TemplateKeepsDigits(template: string, rawNumber: string)
    requires forall k :: 0 <= k < |rawNumber| ==> PhoneFormatting.IsDigit(rawNumber[k])
    requires forall k :: 0 <= k < |template| ==> !PhoneFormatting.IsDigit(template[k])
    ensures PhoneFormatting.Digits(Trim(Untrimmed(template, rawNumber))) == rawNumber
  {
    var (s, i) := Filled(template, rawNumber);
    FilledDigits(template, rawNumber);
    PhoneFormatting.DigitsAppend(s, rawNumber[i..]);
    PhoneFormatting.DigitsOfDigits(rawNumber[i..]);
    assert rawNumber[..i] + rawNumber[i..] == rawNumber;
    TrimKeepsDigits(Untrimmed(template, rawNumber));
  }

  /** An empty number fills every template with nothing. */
  lemma {:induction false} EmptyNumberFillsNothing(template: string)
    ensures Filled(template, "") == ("", 0)
  {
    if template != [] {
      EmptyNumberFillsNothing(template[..|template| - 1]);
    }
  }

  /** `applyFormattingTemplate`. */
  method ApplyFormattingTemplate(template: string, rawNumber: string) returns (r: string)
    ensures r == Trim(Untrimmed(template, rawNumber))
  {
    var rebuiltString := "";
    var rebuiltIndex := 0;
    for k := 0 to |template|
      invariant rebuiltString == Filled(template[..k], rawNumber).0
      invariant rebuiltIndex == Filled(template[..k], rawNumber).1
    {
      FilledNext(template, k, rawNumber);
      var character := template[k];
      if character == DigitPlaceholder {
        if rebuiltIndex < |rawNumber| {
          rebuiltString := rebuiltString + [rawNumber[rebuiltIndex]];
          rebuiltIndex := rebuiltIndex + 1;
        }
      } else {
        if rebuiltIndex < |rawNumber| {
          rebuiltString := rebuiltString + [character];
        }
      }
    }
    assert template[..|template|] == template;
    if rebuiltIndex < |rawNumber| {
      rebuiltString := rebuiltString + rawNumber[rebuiltIndex..];
    } else {
      assert rebuiltString + rawNumber[rebuiltIndex..] == rebuiltString;
    }
    r := Trim(rebuiltString);
  }

  // The final text.

  /** The separator goes between prefix and national number when asked for and not already there. */
  predicate NeedsSeparator(prefix: string, addSpace: bool) {
    addSpace && |prefix| > 0 && prefix[|prefix| - 1] != SeparatorBeforeNationalNumber
  }

  /** The prefix, the separator when needed, and the national number. */
  function Joined(prefix: string, addSpace: bool, nationalNumber: string): string {
    prefix + (if NeedsSeparator(prefix, addSpace) then [SeparatorBeforeNationalNumber] else []) + nationalNumber
  }

  /** The joined text without one trailing separator. */
  function Assembled(prefix: string, addSpace: bool, nationalNumber: string): (r: string)
    ensures var j := Joined(prefix, addSpace, nationalNumber);
            r == j || (r + [SeparatorBeforeNationalNumber] == j)
  {
    var finalNumber := Joined(prefix, addSpace, nationalNumber);
    if |finalNumber| > 0 && finalNumber[|finalNumber| - 1] == SeparatorBeforeNationalNumber then finalNumber[..|finalNumber| - 1]
    else finalNumber
  }

  /**
   * The result starts with the prefix (when something follows it), holds the separator right
   * after it exactly when asked for and not already there, and ends with no separator unless
   * the joined text ended with two.
   */
  lemma AssembledSpec(prefix: string, addSpace: bool, nationalNumber: string)
    ensures var j := Joined(prefix, addSpace, nationalNumber);
            |j| == |prefix| + |nationalNumber| + (if NeedsSeparator(prefix, addSpace) then 1 else 0)
            && j[..|prefix|] == prefix
            && (NeedsSeparator(prefix, addSpace) ==> j[|prefix|] == SeparatorBeforeNationalNumber)
            && j[|j| - |nationalNumber|..] == nationalNumber
    ensures var j := Joined(prefix, addSpace, nationalNumber);
            var r := Assembled(prefix, addSpace, nationalNumber);
            !(|j| >= 2 && j[|j| - 1] == SeparatorBeforeNationalNumber && j[|j| - 2] == SeparatorBeforeNationalNumber) ==>
              r == [] || r[|r| - 1] != SeparatorBeforeNationalNumber
  {
    var j := Joined(prefix, addSpace, nationalNumber);
    var sep: string := if NeedsSeparator(prefix, addSpace) then [SeparatorBeforeNationalNumber] else [];
    assert j == prefix + sep + nationalNumber;
    assert j[..|prefix|] == prefix;
    assert j[|j| - |nationalNumber|..] == nationalNumber;
  }

  /** `String(currentMetadata?.countryCode)`: the description of an optional code. */
  function OptionalCodeText(current: Option<Territory>): string {
    match current
    case Some(t) => "Optional(" + Decimal.NatToString(t.countryCode) + ")"
    case None => "nil"
  }

  /** The formatter's state across calls. */
  class PartialFormatter {
    const engine: Engine
    const items: seq<Territory>
    var defaultRegion: string
    var defaultMetadata: Option<Territory>
    var currentMetadata: Option<Territory>
    var prefixBeforeNationalNumber: string
    var shouldAddSpaceAfterNationalPrefix: bool
    var withPrefix: bool

    /** `init(defaultRegion:withPrefix:)`: the metadata of the region, an empty prefix. */
    constructor (engine: Engine, items: seq<Territory>, defaultRegion: string, withPrefix: bool)
      ensures this.engine == engine && this.items == items
      ensures this.defaultRegion == defaultRegion && this.withPrefix == withPrefix
      ensures defaultMetadata == DefaultMetadataFor(items, defaultRegion) && currentMetadata == defaultMetadata
      ensures prefixBeforeNationalNumber == "" && !shouldAddSpaceAfterNationalPrefix
    {
      this.engine := engine;
      this.items := items;
      this.defaultRegion := defaultRegion;
      prefixBeforeNationalNumber := "";
      shouldAddSpaceAfterNationalPrefix := false;
      this.withPrefix := true;
      new;
      UpdateMetadataForDefaultRegion();
      this.withPrefix := withPrefix;
    }

    /** `currentRegion`: the code ID of the current metadata, else the default region. */
    function CurrentRegion(): (r: string)
      reads this
      ensures currentMetadata.Some? ==> r == currentMetadata.value.codeID
      ensures currentMetadata.None? ==> r == defaultRegion
    {
      if currentMetadata.Some? then currentMetadata.value.codeID else defaultRegion
    }

    /** `updateMetadataForDefaultRegion`. */
    method UpdateMetadataForDefaultRegion()
      modifies this
      ensures defaultMetadata == DefaultMetadataFor(items, defaultRegion) && currentMetadata == defaultMetadata
      ensures defaultRegion == old(defaultRegion) && withPrefix == old(withPrefix)
      ensures prefixBeforeNationalNumber == old(prefixBeforeNationalNumber)
      ensures shouldAddSpaceAfterNationalPrefix == old(shouldAddSpaceAfterNationalPrefix)
    {
      var regionMetadata := FetchMetadataForCountry(items, defaultRegion);
      if regionMetadata.Some? {
        defaultMetadata := FetchMainCountryMetadataForCode(items, regionMetadata.value.countryCode);
      } else {
        defaultMetadata := None;
      }
      currentMetadata := defaultMetadata;
    }

    /**
     * Setting `defaultRegion` (its `didSet`): the metadata is recomputed, so the current
     * region is the main territory of the region's code, or the region itself without one.
     */
    method SetDefaultRegion(region: string)
      modifies this
      ensures defaultRegion == region && withPrefix == old(withPrefix)
      ensures defaultMetadata == DefaultMetadataFor(items, region) && currentMetadata == defaultMetadata
      ensures prefixBeforeNationalNumber == old(prefixBeforeNationalNumber)
      ensures shouldAddSpaceAfterNationalPrefix == old(shouldAddSpaceAfterNationalPrefix)
      ensures CurrentRegion() == match DefaultMetadataFor(items, region) case Some(t) => t.codeID case None => region
    {
      defaultRegion := region;
      UpdateMetadataForDefaultRegion();
    }

    /** `resetVariables`: the default metadata, an empty prefix and no extra space. */
    method ResetVariables()
      modifies this
      ensures currentMetadata == defaultMetadata && prefixBeforeNationalNumber == "" && !shouldAddSpaceAfterNationalPrefix
      ensures defaultRegion == old(defaultRegion) && defaultMetadata == old(defaultMetadata) && withPrefix == old(withPrefix)
    {
      currentMetadata := defaultMetadata;
      prefixBeforeNationalNumber := "";
      shouldAddSpaceAfterNationalPrefix := false;
    }

    /** The length of the international dialling prefix the current metadata finds at the start. */
    static function IddLength(e: Engine, current: Option<Territory>, rawNumber: string): (n: Option<nat>)
      ensures n.Some? ==> n.value <= |rawNumber|
      ensures n.Some? ==> current.Some? && current.value.internationalPrefix.Some?
    {
      if current.None? || current.value.internationalPrefix.None? then None
      else
        var matches := MatchedStringByRegex(e, IddPattern(current.value.internationalPrefix.value), rawNumber);
        if matches == [] then None else Some(|matches[0]|)
    }

    /** `extractIDD`: a matched international dialling prefix becomes the prefix and is cut off. */
    method ExtractIDD(rawNumber: string) returns (processedNumber: string)
      modifies this
      ensures IddLength(engine, currentMetadata, rawNumber).Some? ==>
                var n := IddLength(engine, currentMetadata, rawNumber).value;
                processedNumber == rawNumber[n..] && prefixBeforeNationalNumber == rawNumber[..n]
      ensures IddLength(engine, currentMetadata, rawNumber).None? ==>
                processedNumber == rawNumber && prefixBeforeNationalNumber == old(prefixBeforeNationalNumber)
      ensures currentMetadata == old(currentMetadata) && defaultMetadata == old(defaultMetadata) && defaultRegion == old(defaultRegion)
      ensures shouldAddSpaceAfterNationalPrefix == old(shouldAddSpaceAfterNationalPrefix) && withPrefix == old(withPrefix)
    {
      processedNumber := rawNumber;
      if currentMetadata.Some? && currentMetadata.value.internationalPrefix.Some? {
        var prefixPattern := IddPattern(currentMetadata.value.internationalPrefix.value);
        if !engine.compiles(prefixPattern) {
          return processedNumber;
        }
        var matches := MatchedStringByRegex(engine, prefixPattern, rawNumber);
        if matches != [] {
          var startCallingCode := |matches[0]|;
          processedNumber := rawNumber[startCallingCode..];
          prefixBeforeNationalNumber := rawNumber[..startCallingCode];
        }
      }
    }

    /** `extractNationalPrefix`, with the NANPA "1" removed from the national number. */
    method ExtractNationalPrefix(rawNumber: string) returns (processedNumber: string)
      modifies this
      ensures var (added, rest) := NationalPrefixSplit(engine, currentMetadata, rawNumber);
              processedNumber == rest && prefixBeforeNationalNumber == old(prefixBeforeNationalNumber) + added
      ensures currentMetadata == old(currentMetadata) && defaultMetadata == old(defaultMetadata) && defaultRegion == old(defaultRegion)
      ensures shouldAddSpaceAfterNationalPrefix == old(shouldAddSpaceAfterNationalPrefix) && withPrefix == old(withPrefix)
    {
      var startOfNationalNumber := 0;
      if IsNanpaNumberWithNationalPrefix(currentMetadata, rawNumber) {
        prefixBeforeNationalNumber := prefixBeforeNationalNumber + "1 ";
        return rawNumber[1..];
      } else if currentMetadata.Some? && currentMetadata.value.nationalPrefixForParsing.Some? {
        var nationalPrefixPattern := NationalPrefixParsingPattern(currentMetadata.value.nationalPrefixForParsing.value);
        var matches := MatchedStringByRegex(engine, nationalPrefixPattern, rawNumber);
        if matches != [] {
          startOfNationalNumber := |matches[0]|;
        }
      }
      processedNumber := rawNumber[startOfNationalNumber..];
      prefixBeforeNationalNumber := prefixBeforeNationalNumber + rawNumber[..startOfNationalNumber];
    }

    /** The prefix with a separator after it when it is not empty and does not start with "+". */
    static function SeparatedPrefix(prefix: string): (r: string)
      ensures prefix == [] || prefix[0] == '+' ==> r == prefix
      ensures prefix != [] && prefix[0] != '+' ==> r == prefix + " "
    {
      if prefix != [] && prefix[0] != '+' then prefix + " " else prefix
    }

    /**
     * `extractCountryCallingCode`: a known code at the start of the number moves, with a
     * space, into the prefix and selects the main territory of that code.
     */
    method ExtractCountryCallingCode(rawNumber: string) returns (processedNumber: string)
      modifies this
      ensures rawNumber == [] ==> processedNumber == rawNumber && prefixBeforeNationalNumber == old(prefixBeforeNationalNumber)
                                  && currentMetadata == old(currentMetadata)
      ensures rawNumber != [] ==>
                var separated := SeparatedPrefix(old(prefixBeforeNationalNumber));
                var (code, rest) := PhoneParser.PotentialCountryCode(rawNumber, "", PerCodeOf(items));
                && (code != 0 ==> processedNumber == rest && currentMetadata == FetchMainCountryMetadataForCode(items, code)
                                  && prefixBeforeNationalNumber == separated + Decimal.NatToString(code) + " ")
                && (code == 0 ==> processedNumber == rawNumber && currentMetadata == old(currentMetadata)
                                  && prefixBeforeNationalNumber ==
                                       if !withPrefix && separated == [] then OptionalCodeText(currentMetadata) + " " else separated)
      ensures defaultMetadata == old(defaultMetadata) && defaultRegion == old(defaultRegion)
      ensures shouldAddSpaceAfterNationalPrefix == old(shouldAddSpaceAfterNationalPrefix) && withPrefix == old(withPrefix)
    {
      processedNumber := rawNumber;
      if rawNumber == [] {
        return rawNumber;
      }
      if prefixBeforeNationalNumber != [] && prefixBeforeNationalNumber[0] != '+' {
        prefixBeforeNationalNumber := prefixBeforeNationalNumber + [SeparatorBeforeNationalNumber];
      }
      var potentialCountryCode, numberWithoutCountryCallingCode := PhoneParser.ExtractPotentialCountryCode(rawNumber, "", PerCodeOf(items));
      if potentialCountryCode != 0 {
        processedNumber := numberWithoutCountryCallingCode;
        currentMetadata := FetchMainCountryMetadataForCode(items, potentialCountryCode);
        var potentialCountryCodeString := Decimal.NatToString(potentialCountryCode);
        prefixBeforeNationalNumber := prefixBeforeNationalNumber + potentialCountryCodeString;
        prefixBeforeNationalNumber := prefixBeforeNationalNumber + " ";
      } else if !withPrefix && prefixBeforeNationalNumber == [] {
        var potentialCountryCodeString := OptionalCodeText(currentMetadata);
        prefixBeforeNationalNumber := prefixBeforeNationalNumber + potentialCountryCodeString;
        prefixBeforeNationalNumber := prefixBeforeNationalNumber + " ";
      }
    }

    /** `availableFormats`, filled in one pass over the current metadata's formats. */
    method AvailableFormats(rawNumber: string) returns (r: Option<seq<Format>>)
      ensures r == AvailableFormatsOf(engine, currentMetadata, rawNumber)
    {
      if currentMetadata.None? {
        return None;
      }
      var formatList := currentMetadata.value.numberFormats;
      var tempPossibleFormats: seq<Format> := [];
      var possibleFormats: seq<Format> := [];
      for i := 0 to |formatList|
        invariant tempPossibleFormats == EligibleFormats(engine, formatList[..i])
        invariant possibleFormats == PossibleFormats(engine, formatList[..i], rawNumber)
      {
        assert formatList[..i + 1][..i] == formatList[..i];
        var format := formatList[i];
        if IsFormatEligible(engine, format) {
          tempPossibleFormats := tempPossibleFormats + [format];
          if |format.leadingDigitsPatterns| > 0 {
            var leadingDigitPattern := format.leadingDigitsPatterns[|format.leadingDigitsPatterns| - 1];
            if StringPositionByRegex(engine, leadingDigitPattern, rawNumber) == 0 {
              possibleFormats := possibleFormats + [format];
            }
          } else {
            if MatchesEntirely(engine, format.pattern, rawNumber) {
              possibleFormats := possibleFormats + [format];
            }
          }
        }
      }
      assert formatList[..|formatList|] == formatList;
      assert possibleFormats == PossibleFormats(engine, formatList, rawNumber);
      if |possibleFormats| == 0 {
        possibleFormats := possibleFormats + tempPossibleFormats;
        assert possibleFormats == EligibleFormats(engine, formatList);
      }
      assert Some(possibleFormats) == AvailableFormatsOf(engine, currentMetadata, rawNumber);
      return Some(possibleFormats);
    }

    /**
     * `applyFormat`: the first applicable format lays the number out; its national prefix
     * rule may ask for a space after the prefix; nil when no format applies.
     */
    method ApplyFormat(rawNumber: string, formats: seq<Format>) returns (r: Option<string>)
      modifies this
      ensures FirstApplicable(engine, formats, rawNumber, 0).None? ==>
                r.None? && shouldAddSpaceAfterNationalPrefix == old(shouldAddSpaceAfterNationalPrefix)
      ensures FirstApplicable(engine, formats, rawNumber, 0).Some? ==>
                var f := formats[FirstApplicable(engine, formats, rawNumber, 0).value];
                && r == Some(ReplaceStringByRegex(engine, f.pattern.value, rawNumber, f.format.value))
                && shouldAddSpaceAfterNationalPrefix == (old(shouldAddSpaceAfterNationalPrefix) || RuleHasSeparator(engine, f))
      ensures currentMetadata == old(currentMetadata) && prefixBeforeNationalNumber == old(prefixBeforeNationalNumber)
      ensures defaultMetadata == old(defaultMetadata) && defaultRegion == old(defaultRegion) && withPrefix == old(withPrefix)
    {
      var i := 0;
      while i < |formats|
        invariant 0 <= i <= |formats|
        invariant FirstApplicable(engine, formats, rawNumber, 0) == FirstApplicable(engine, formats, rawNumber, i)
        invariant shouldAddSpaceAfterNationalPrefix == old(shouldAddSpaceAfterNationalPrefix)
        invariant currentMetadata == old(currentMetadata) && prefixBeforeNationalNumber == old(prefixBeforeNationalNumber)
        invariant defaultMetadata == old(defaultMetadata) && defaultRegion == old(defaultRegion) && withPrefix == old(withPrefix)
      {
        var format := formats[i];
        if format.pattern.Some? && format.format.Some? {
          var patternRegExp := FormatPattern(format.pattern.value);
          if engine.compiles(patternRegExp) && engine.matches(patternRegExp, rawNumber) != [] {
            if format.nationalPrefixFormattingRule.Some? && engine.compiles(PrefixSeparatorPattern) {
              var nationalPrefixMatches := engine.matches(PrefixSeparatorPattern, format.nationalPrefixFormattingRule.value);
              if |nationalPrefixMatches| > 0 {
                shouldAddSpaceAfterNationalPrefix := true;
              }
            }
            if format.nationalPrefixFormattingRule.None? || engine.compiles(PrefixSeparatorPattern) {
              var formattedNumber := ReplaceStringByRegex(engine, format.pattern.value, rawNumber, format.format.value);
              return Some(formattedNumber);
            }
          }
        }
        i := i + 1;
      }
      return None;
    }

    /**
     * `createFormattingTemplate`: the template of the format for the number; a template found
     * for a format whose national prefix rule holds a separator asks for a space.
     */
    method CreateFormattingTemplate(format: Format, rawNumber: string) returns (r: Option<string>)
      modifies this
      ensures r == FormattingTemplateOf(engine, format, rawNumber)
      ensures shouldAddSpaceAfterNationalPrefix == (old(shouldAddSpaceAfterNationalPrefix) || (r.Some? && RuleHasSeparator(engine, format)))
      ensures currentMetadata == old(currentMetadata) && prefixBeforeNationalNumber == old(prefixBeforeNationalNumber)
      ensures defaultMetadata == old(defaultMetadata) && defaultRegion == old(defaultRegion) && withPrefix == old(withPrefix)
    {
      if format.pattern.None? || format.format.None? {
        return None;
      }
      var numberPattern := format.pattern.value;
      if '|' in numberPattern {
        return None;
      }
      var simplified := SimplifiedPattern(engine, numberPattern);
      if simplified.None? {
        return None;
      }
      numberPattern := simplified.value;
      var tempTemplate := GetFormattingTemplate(engine, numberPattern, format.format.value, rawNumber);
      if tempTemplate.Some? {
        if format.nationalPrefixFormattingRule.Some? {
          if !engine.compiles(PrefixSeparatorPattern) {
            return None;
          }
          if engine.matches(PrefixSeparatorPattern, format.nationalPrefixFormattingRule.value) != [] {
            shouldAddSpaceAfterNationalPrefix := true;
          }
        }
        return tempTemplate;
      }
      return None;
    }

    /**
     * The loop of `formatPartial` over the formats: the first format with a template lays the
     * number out with it; without one the number is left as it is.
     */
    method FormatWithTemplate(nationalNumber: string, formats: seq<Format>) returns (r: string)
      modifies this
      ensures FirstTemplate(engine, formats, nationalNumber, 0).None? ==>
                r == nationalNumber && shouldAddSpaceAfterNationalPrefix == old(shouldAddSpaceAfterNationalPrefix)
      ensures FirstTemplate(engine, formats, nationalNumber, 0).Some? ==>
                var f := formats[FirstTemplate(engine, formats, nationalNumber, 0).value];
                && r == Trim(Untrimmed(FormattingTemplateOf(engine, f, nationalNumber).value, nationalNumber))
                && shouldAddSpaceAfterNationalPrefix == (old(shouldAddSpaceAfterNationalPrefix) || RuleHasSeparator(engine, f))
      ensures currentMetadata == old(currentMetadata) && prefixBeforeNationalNumber == old(prefixBeforeNationalNumber)
      ensures defaultMetadata == old(defaultMetadata) && defaultRegion == old(defaultRegion) && withPrefix == old(withPrefix)
    {
      r := nationalNumber;
      var i := 0;
      while i < |formats|
        invariant 0 <= i <= |formats|
        invariant FirstTemplate(engine, formats, nationalNumber, 0) == FirstTemplate(engine, formats, nationalNumber, i)
        invariant shouldAddSpaceAfterNationalPrefix == old(shouldAddSpaceAfterNationalPrefix)
        invariant currentMetadata == old(currentMetadata) && prefixBeforeNationalNumber == old(prefixBeforeNationalNumber)
        invariant defaultMetadata == old(defaultMetadata) && defaultRegion == old(defaultRegion) && withPrefix == old(withPrefix)
      {
        var template := CreateFormattingTemplate(formats[i], nationalNumber);
        if template.Some? {
          assert FirstTemplate(engine, formats, nationalNumber, 0) == Some(i);
          assert template.value == FormattingTemplateOf(engine, formats[i], nationalNumber).value;
          r := ApplyFormattingTemplate(template.value, nationalNumber);
          return;
        }
        assert FirstTemplate(engine, formats, nationalNumber, i) == FirstTemplate(engine, formats, nationalNumber, i + 1);
        i := i + 1;
      }
      assert FirstTemplate(engine, formats, nationalNumber, |formats|) == None;
    }

    /**
     * `formatPartial`: the state is reset first; input that fails the validity test comes
     * back unchanged; otherwise the prefix and the metadata are those the extractions find and
     * the result is `PartialFormatOf` of the input.
     */
    method FormatPartial(rawNumber: string) returns (r: string)
      modifies this
      ensures defaultMetadata == old(defaultMetadata) && defaultRegion == old(defaultRegion) && withPrefix == old(withPrefix)
      ensures r == PartialFormatOf(engine, items, defaultMetadata, withPrefix, rawNumber)
      ensures !IsValidRawNumber(engine, rawNumber) ==>
                r == rawNumber && currentMetadata == defaultMetadata && prefixBeforeNationalNumber == "" && !shouldAddSpaceAfterNationalPrefix
      ensures IsValidRawNumber(engine, rawNumber) ==>
                var s := PrefixSplit(engine, items, defaultMetadata, withPrefix, rawNumber);
                && prefixBeforeNationalNumber == s.prefix && currentMetadata == s.current
                && shouldAddSpaceAfterNationalPrefix == NationalLayout(engine, s.current, s.nationalNumber).1
    {
      ResetVariables();
      if !IsValidRawNumber(engine, rawNumber) {
        return rawNumber;
      }
      var iddFreeNumber := ExtractIDD(rawNumber);
      var nationalNumber := PhoneParser.NormalizePhoneNumber(iddFreeNumber);
      ghost var afterIdd := IddSplit(engine, defaultMetadata, rawNumber);
      assert Split(prefixBeforeNationalNumber, currentMetadata, nationalNumber) == afterIdd;
      if |prefixBeforeNationalNumber| > 0 {
        nationalNumber := ExtractCountryCallingCode(nationalNumber);
        assert Split(prefixBeforeNationalNumber, currentMetadata, nationalNumber) == CallingCodeSplit(items, withPrefix, afterIdd);
      }
      nationalNumber := ExtractNationalPrefix(nationalNumber);
      ghost var split := PrefixSplit(engine, items, defaultMetadata, withPrefix, rawNumber);
      assert Split(prefixBeforeNationalNumber, currentMetadata, nationalNumber) == split;
      nationalNumber := LayOut(nationalNumber);
      r := AssembleFinalNumber(prefixBeforeNationalNumber, shouldAddSpaceAfterNationalPrefix, nationalNumber);
    }

    /**
     * The layout step of `formatPartial`, on the reset space flag: the available formats are
     * tried by `applyFormat`, then for a template.
     */
    method LayOut(nationalNumber: string) returns (r: string)
      requires !shouldAddSpaceAfterNationalPrefix
      modifies this
      ensures (r, shouldAddSpaceAfterNationalPrefix) == NationalLayout(engine, currentMetadata, nationalNumber)
      ensures currentMetadata == old(currentMetadata) && prefixBeforeNationalNumber == old(prefixBeforeNationalNumber)
      ensures defaultMetadata == old(defaultMetadata) && defaultRegion == old(defaultRegion) && withPrefix == old(withPrefix)
    {
      r := nationalNumber;
      var formats := AvailableFormats(nationalNumber);
      if formats.Some? {
        var formattedNumber := ApplyFormat(nationalNumber, formats.value);
        if formattedNumber.Some? {
          r := formattedNumber.value;
        } else {
          r := FormatWithTemplate(nationalNumber, formats.value);
        }
      }
    }

    /** The assembly of the final text, step by step. */
    static method AssembleFinalNumber(prefix: string, addSpace: bool, nationalNumber: string) returns (finalNumber: string)
      ensures finalNumber == Assembled(prefix, addSpace, nationalNumber)
    {
      finalNumber := "";
      if |prefix| > 0 {
        finalNumber := finalNumber + prefix;
      }
      if addSpace && |prefix| > 0 && prefix[|prefix| - 1] != SeparatorBeforeNationalNumber {
        finalNumber := finalNumber + [SeparatorBeforeNationalNumber];
      }
      if |nationalNumber| > 0 {
        finalNumber := finalNumber + nationalNumber;
      }
      assert finalNumber == Joined(prefix, addSpace, nationalNumber);
      if |finalNumber| > 0 && finalNumber[|finalNumber| - 1] == SeparatorBeforeNationalNumber {
        finalNumber := finalNumber[..|finalNumber| - 1];
      }
    }
  }

  // `formatPartial` as a function of its inputs.

  /** What the extractions leave: the prefix built, the metadata in effect and the national number. */
  datatype Split = Split(prefix: string, current: Option<Territory>, nationalNumber: string)

  /** Every character of `s` is an ASCII digit. */
  predicate AllDigits(s: string) {
    forall k :: 0 <= k < |s| ==> PhoneFormatting.IsDigit(s[k])
  }

  /** No character of `s` is an ASCII digit. */
  predicate DigitFree(s: string) {
    forall k :: 0 <= k < |s| ==> !PhoneFormatting.IsDigit(s[k])
  }

  /**
   * `extractIDD` on the reset state, then `normalizePhoneNumber`: the matched international
   * dialling prefix becomes the prefix, and the digits of the rest the national number.
   */
  function IddSplit(e: Engine, current: Option<Territory>, rawNumber: string): (s: Split)
    ensures s.current == current && AllDigits(s.nationalNumber)
    ensures PartialFormatter.IddLength(e, current, rawNumber).None? ==>
              s.prefix == "" && s.nationalNumber == PhoneFormatting.Digits(rawNumber)
    ensures PartialFormatter.IddLength(e, current, rawNumber).Some? ==>
              var n := PartialFormatter.IddLength(e, current, rawNumber).value;
              s.prefix == rawNumber[..n] && s.nationalNumber == PhoneFormatting.Digits(rawNumber[n..])
  {
    match PartialFormatter.IddLength(e, current, rawNumber)
    case Some(n) => Split(rawNumber[..n], current, PhoneParser.NormalizePhoneNumber(rawNumber[n..]))
    case None => Split("", current, PhoneParser.NormalizePhoneNumber(rawNumber))
  }

  /**
   * `extractCountryCallingCode` on a split: a known code at the front of the national number
   * moves, behind the separated prefix and followed by a space, into the prefix and selects
   * the main territory of the code.
   */
  function CallingCodeSplit(items: seq<Territory>, withPrefix: bool, s: Split): (r: Split)
  {
    if s.nationalNumber == [] then s
    else
      var separated := PartialFormatter.SeparatedPrefix(s.prefix);
      var (code, rest) := PhoneParser.PotentialCountryCode(s.nationalNumber, "", PerCodeOf(items));
      if code != 0 then Split(separated + Decimal.NatToString(code) + " ", FetchMainCountryMetadataForCode(items, code), rest)
      else Split(if !withPrefix && separated == [] then OptionalCodeText(s.current) + " " else separated, s.current, s.nationalNumber)
  }

  /**
   * The split `formatPartial` reaches before laying the national number out: the
   * international dialling prefix, the country calling code (only behind a prefix), then the
   * national prefix.
   */
  function PrefixSplit(e: Engine, items: seq<Territory>, defaultMetadata: Option<Territory>, withPrefix: bool, rawNumber: string): Split {
    var afterIdd := IddSplit(e, defaultMetadata, rawNumber);
    var afterCode := if |afterIdd.prefix| > 0 then CallingCodeSplit(items, withPrefix, afterIdd) else afterIdd;
    var (added, rest) := NationalPrefixSplit(e, afterCode.current, afterCode.nationalNumber);
    Split(afterCode.prefix + added, afterCode.current, rest)
  }

  /**
   * The layout of the national number and whether a space goes after the prefix: the first
   * applicable available format, else the template of the first format that has one, else the
   * number as it is; the space is asked for by the national prefix rule of the format used.
   */
  function NationalLayout(e: Engine, current: Option<Territory>, nationalNumber: string): (r: (string, bool))
    ensures r.1 ==> AvailableFormatsOf(e, current, nationalNumber).Some?
  {
    match AvailableFormatsOf(e, current, nationalNumber)
    case None => (nationalNumber, false)
    case Some(formats) =>
      match FirstApplicable(e, formats, nationalNumber, 0)
      case Some(i) =>
        (ReplaceStringByRegex(e, formats[i].pattern.value, nationalNumber, formats[i].format.value), RuleHasSeparator(e, formats[i]))
      case None =>
        match FirstTemplate(e, formats, nationalNumber, 0)
        case Some(i) =>
          (Trim(Untrimmed(FormattingTemplateOf(e, formats[i], nationalNumber).value, nationalNumber)), RuleHasSeparator(e, formats[i]))
        case None => (nationalNumber, false)
  }

  /**
   * What `formatPartial` answers for `rawNumber` on a formatter with the given metadata:
   * invalid input unchanged, otherwise the prefix found and the national number laid out,
   * assembled.
   */
  function PartialFormatOf(e: Engine, items: seq<Territory>, defaultMetadata: Option<Territory>, withPrefix: bool, rawNumber: string): string {
    if !IsValidRawNumber(e, rawNumber) then rawNumber
    else
      var s := PrefixSplit(e, items, defaultMetadata, withPrefix, rawNumber);
      var (nationalNumber, addSpace) := NationalLayout(e, s.current, s.nationalNumber);
      Assembled(s.prefix, addSpace, nationalNumber)
  }

  /** What the country code leaves of a number of digits is digits again. */
  lemma CallingCodeSplitDigits(items: seq<Territory>, withPrefix: bool, s: Split)
    requires AllDigits(s.nationalNumber)
    ensures AllDigits(CallingCodeSplit(items, withPrefix, s).nationalNumber)
  {
    if s.nationalNumber != [] {
      var (code, rest) := PhoneParser.PotentialCountryCode(s.nationalNumber, "", PerCodeOf(items));
      if code != 0 {
        var start := PhoneParser.StartPosition(s.nationalNumber);
        var i := PhoneParser.ShortestFrom(s.nationalNumber, start, 1, PerCodeOf(items)).value;
        assert rest == s.nationalNumber[start + i..];
      }
    }
  }

  /** The national number `formatPartial` lays out holds digits only. */
  lemma PrefixSplitDigits(e: Engine, items: seq<Territory>, defaultMetadata: Option<Territory>, withPrefix: bool, rawNumber: string)
    ensures AllDigits(PrefixSplit(e, items, defaultMetadata, withPrefix, rawNumber).nationalNumber)
  {
    var afterIdd := IddSplit(e, defaultMetadata, rawNumber);
    if |afterIdd.prefix| > 0 {
      CallingCodeSplitDigits(items, withPrefix, afterIdd);
    }
  }

  /** A run of characters without digits, between two texts, adds no digits. */
  lemma DigitsAround(a: string, sep: string, b: string)
    requires DigitFree(sep)
    ensures PhoneFormatting.Digits(a + sep + b) == PhoneFormatting.Digits(a) + PhoneFormatting.Digits(b)
  {
    var front := a + sep;
    var da := PhoneFormatting.Digits(a);
    PhoneFormatting.NoDigits(sep);
    PhoneFormatting.DigitsAppend(a, sep);
    assert da + [] == da;
    PhoneFormatting.DigitsAppend(front, b);
  }

  /** Assembling keeps the digits of the prefix followed by those of the national number. */
  lemma AssembledDigits(prefix: string, addSpace: bool, nationalNumber: string)
    ensures PhoneFormatting.Digits(Assembled(prefix, addSpace, nationalNumber)) ==
            PhoneFormatting.Digits(prefix) + PhoneFormatting.Digits(nationalNumber)
  {
    var space: string := [SeparatorBeforeNationalNumber];
    var sep: string := if NeedsSeparator(prefix, addSpace) then space else [];
    var j := Joined(prefix, addSpace, nationalNumber);
    assert j == prefix + sep + nationalNumber;
    DigitsAround(prefix, sep, nationalNumber);
    var r := Assembled(prefix, addSpace, nationalNumber);
    if r != j {
      assert r + space + [] == j;
      DigitsAround(r, space, []);
      assert PhoneFormatting.Digits([]) == [];
    }
  }

  /** Whether the national number is laid out by an applicable format, through the engine's replacement. */
  predicate LaidOutByFormat(e: Engine, current: Option<Territory>, nationalNumber: string) {
    var formats := AvailableFormatsOf(e, current, nationalNumber);
    formats.Some? && FirstApplicable(e, formats.value, nationalNumber, 0).Some?
  }

  /** The template the national number is laid out with, when no format applies and one yields a template. */
  function LayoutTemplate(e: Engine, current: Option<Territory>, nationalNumber: string): (r: Option<string>)
    ensures r.Some? ==> !LaidOutByFormat(e, current, nationalNumber)
  {
    match AvailableFormatsOf(e, current, nationalNumber)
    case None => None
    case Some(formats) =>
      if FirstApplicable(e, formats, nationalNumber, 0).Some? then None
      else
        match FirstTemplate(e, formats, nationalNumber, 0)
        case Some(i) => FormattingTemplateOf(e, formats[i], nationalNumber)
        case None => None
  }

  /**
   * Outside the engine's replacement the layout drops, repeats or moves no digit: the number
   * stays as it is, or is filled into a template that holds no digits of its own.
   */
  lemma NationalLayoutKeepsDigits(e: Engine, current: Option<Territory>, nationalNumber: string)
    requires AllDigits(nationalNumber)
    requires LayoutTemplate(e, current, nationalNumber).Some? ==>
               DigitFree(LayoutTemplate(e, current, nationalNumber).value)
    requires !LaidOutByFormat(e, current, nationalNumber)
    ensures LayoutTemplate(e, current, nationalNumber).None? ==> NationalLayout(e, current, nationalNumber).0 == nationalNumber
    ensures PhoneFormatting.Digits(NationalLayout(e, current, nationalNumber).0) == nationalNumber
  {
    match LayoutTemplate(e, current, nationalNumber)
    case Some(template) =>
      TemplateKeepsDigits(template, nationalNumber);
    case None =>
      PhoneFormatting.DigitsOfDigits(nationalNumber);
  }

  /**
   * For valid input the digits of the result are those of the prefix followed by the national
   * number, whenever the layout needs no engine replacement and no template digits.
   */
  lemma PartialFormatKeepsDigits(e: Engine, items: seq<Territory>, defaultMetadata: Option<Territory>, withPrefix: bool, rawNumber: string)
    requires IsValidRawNumber(e, rawNumber)
    requires var s := PrefixSplit(e, items, defaultMetadata, withPrefix, rawNumber);
             && !LaidOutByFormat(e, s.current, s.nationalNumber)
             && (LayoutTemplate(e, s.current, s.nationalNumber).Some? ==>
                   DigitFree(LayoutTemplate(e, s.current, s.nationalNumber).value))
    ensures var s := PrefixSplit(e, items, defaultMetadata, withPrefix, rawNumber);
            PhoneFormatting.Digits(PartialFormatOf(e, items, defaultMetadata, withPrefix, rawNumber)) ==
            PhoneFormatting.Digits(s.prefix) + s.nationalNumber
  {
    var s := PrefixSplit(e, items, defaultMetadata, withPrefix, rawNumber);
    PrefixSplitDigits(e, items, defaultMetadata, withPrefix, rawNumber);
    NationalLayoutKeepsDigits(e, s.current, s.nationalNumber);
    var (nationalNumber, addSpace) := NationalLayout(e, s.current, s.nationalNumber);
    AssembledDigits(s.prefix, addSpace, nationalNumber);
  }
}
