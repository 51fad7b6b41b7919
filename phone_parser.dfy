/**
 * PhoneNumberKit's `PhoneNumberParser`: normalisation, the extraction of a country code from
 * the front of a number, the stripping of international and national prefixes, and the
 * classification of a national number by the patterns of its territory.
 */
module PhoneParser {
  import opened Wrappers
  import opened PhoneConstants
  import opened PhoneRegex
  import opened PhoneMetadata
  import Decimal
  import PhoneFormatting

  /** `normalizePhoneNumber`: the digit map applied, which keeps exactly the ASCII digits. */
  function NormalizePhoneNumber(number: string): (r: string)
    ensures r == PhoneFormatting.Digits(number)
  {
    NormalizeKeepsDigits(number);
    ReplacedOccurrences(number, AllNormalizationMappings)
  }

  // `extractPotentialCountryCode`.

  /** Where the digits of a country code start: after a leading `+`. */
  function StartPosition(fullNumber: string): (p: nat)
    ensures p <= 1
  {
    if |fullNumber| > 0 && fullNumber[0] == '+' then 1 else 0
  }

  /** The `i` characters from `start` are the text of a country code that has metadata. */
  predicate KnownCodeAt(fullNumber: string, start: nat, i: nat, perCode: map<nat, Territory>) {
    && start + i <= |fullNumber|
    && Decimal.ParseUInt64(fullNumber[start..start + i]).Some?
    && Decimal.ParseUInt64(fullNumber[start..start + i]).value in perCode
  }

  /** The smallest length from `i` up to `maxLengthCountryCode` at which a known code starts. */
  function ShortestFrom(fullNumber: string, start: nat, i: nat, perCode: map<nat, Territory>): (r: Option<nat>)
    requires i >= 1
    ensures r.Some? ==> i <= r.value <= MaxLengthCountryCode && KnownCodeAt(fullNumber, start, r.value, perCode)
    ensures r.Some? ==> forall j :: i <= j < r.value ==> !KnownCodeAt(fullNumber, start, j, perCode)
    ensures r.None? ==> forall j :: i <= j <= MaxLengthCountryCode ==> !KnownCodeAt(fullNumber, start, j, perCode)
    decreases MaxLengthCountryCode + 1 - i
  {
    if i > MaxLengthCountryCode || start + i > |fullNumber| then None
    else if KnownCodeAt(fullNumber, start, i, perCode) then Some(i)
    else ShortestFrom(fullNumber, start, i + 1, perCode)
  }

  /**
   * What `extractPotentialCountryCode` is meant to compute: 0 and the national number untouched
   * for empty input, a leading "0" or a lone "+"; otherwise the shortest prefix of one to three
   * digits (after a "+") that is a known code, with the rest as the national number.
   */
  function PotentialCountryCode(fullNumber: string, nationalNumber: string, perCode: map<nat, Territory>): (r: (nat, string))
  {
    if |fullNumber| == 0 || fullNumber[0] == '0' || fullNumber == "+" then (0, nationalNumber)
    else
      var start := StartPosition(fullNumber);
      match ShortestFrom(fullNumber, start, 1, perCode)
      case Some(i) => (Decimal.ParseUInt64(fullNumber[start..start + i]).value, fullNumber[start + i..])
      case None => (0, nationalNumber)
  }

  /**
   * The shortest known code wins and the national number is what follows it; without a known
   * code of at most three digits the answer is 0 and the national number is untouched.
   */
  lemma PotentialCountryCodeSpec(fullNumber: string, nationalNumber: string, perCode: map<nat, Territory>)
    ensures |fullNumber| == 0 || fullNumber[0] == '0' || fullNumber == "+" ==> PotentialCountryCode(fullNumber, nationalNumber, perCode) == (0, nationalNumber)
    ensures !(|fullNumber| == 0 || fullNumber[0] == '0' || fullNumber == "+") ==>
              var start := StartPosition(fullNumber);
              var r := PotentialCountryCode(fullNumber, nationalNumber, perCode);
              && (r.0 != 0 || r.1 != nationalNumber ==> exists i :: 1 <= i <= MaxLengthCountryCode && KnownCodeAt(fullNumber, start, i, perCode))
              && forall i :: 1 <= i <= MaxLengthCountryCode && KnownCodeAt(fullNumber, start, i, perCode) ==>
                   exists k :: 1 <= k <= i && KnownCodeAt(fullNumber, start, k, perCode)
                            && r == (Decimal.ParseUInt64(fullNumber[start..start + k]).value, fullNumber[start + k..])
  {
    if !(|fullNumber| == 0 || fullNumber[0] == '0' || fullNumber == "+") {
      var start := StartPosition(fullNumber);
      var s := ShortestFrom(fullNumber, start, 1, perCode);
      if s.Some? {
        assert KnownCodeAt(fullNumber, start, s.value, perCode);
      }
    }
  }

  /**
   * `extractPotentialCountryCode` with the national number taken after the code's digits:
   * prefix lengths 1, 2, 3 are tried in order, within the number.
   */
  method ExtractPotentialCountryCode(fullNumber: string, nationalNumber: string, perCode: map<nat, Territory>)
    returns (code: nat, newNationalNumber: string)
    ensures (code, newNationalNumber) == PotentialCountryCode(fullNumber, nationalNumber, perCode)
  {
    if |fullNumber| == 0 || fullNumber[0] == '0' {
      return 0, nationalNumber;
    }
    var numberLength := |fullNumber|;
    var startPosition := 0;
    if fullNumber[0] == '+' {
      if numberLength == 1 {
        return 0, nationalNumber;
      }
      startPosition := 1;
    }
    var i := 1;
    while i <= numberLength - startPosition
      invariant 1 <= i
      invariant ShortestFrom(fullNumber, startPosition, 1, perCode) == ShortestFrom(fullNumber, startPosition, i, perCode)
      decreases numberLength - i
    {
      if i > MaxLengthCountryCode {
        break;
      }
      var subNumber := fullNumber[startPosition..startPosition + i];
      var potentialCountryCode := Decimal.ParseUInt64(subNumber);
      if potentialCountryCode.Some? && potentialCountryCode.value in perCode {
        return potentialCountryCode.value, fullNumber[startPosition + i..];
      }
      i := i + 1;
    }
    return 0, nationalNumber;
  }

  /**
   * `extractPotentialCountryCode` as written: the loop runs up to the number's full length,
   * so after a "+" the last length reads one character past the end (`None`, the range
   * exception of `substringWithRange`), and the national number is taken from index `i`
   * rather than from after the code.
   */
  function PotentialCountryCodeAsWritten(fullNumber: string, nationalNumber: string, perCode: map<nat, Territory>): Option<(nat, string)> {
    if |fullNumber| == 0 || fullNumber[0] == '0' || fullNumber == "+" then Some((0, nationalNumber))
    else AsWrittenFrom(fullNumber, StartPosition(fullNumber), 1, nationalNumber, perCode)
  }

  /** The loop of `extractPotentialCountryCode` as written, from length `i`. */
  function AsWrittenFrom(fullNumber: string, start: nat, i: nat, nationalNumber: string, perCode: map<nat, Territory>): Option<(nat, string)>
    requires i >= 1
    decreases MaxLengthCountryCode + 1 - i
  {
    if i > MaxLengthCountryCode || i > |fullNumber| then Some((0, nationalNumber))
    else if start + i > |fullNumber| then None
    else if KnownCodeAt(fullNumber, start, i, perCode) then Some((Decimal.ParseUInt64(fullNumber[start..start + i]).value, fullNumber[i..]))
    else AsWrittenFrom(fullNumber, start, i + 1, nationalNumber, perCode)
  }

  /** Without a leading "+" the code as written computes the intended result. */
  lemma {:induction false} AsWrittenAgreesWithoutPlus(fullNumber: string, nationalNumber: string, perCode: map<nat, Territory>)
    requires |fullNumber| > 0 && fullNumber[0] != '+'
    ensures PotentialCountryCodeAsWritten(fullNumber, nationalNumber, perCode) == Some(PotentialCountryCode(fullNumber, nationalNumber, perCode))
  {
    if fullNumber[0] != '0' {
      AsWrittenFromAgrees(fullNumber, 1, nationalNumber, perCode);
    }
  }

  /** The loop as written and the intended search agree from every length when nothing precedes the digits. */
  lemma {:induction false} AsWrittenFromAgrees(fullNumber: string, i: nat, nationalNumber: string, perCode: map<nat, Territory>)
    requires i >= 1
    ensures AsWrittenFrom(fullNumber, 0, i, nationalNumber, perCode) ==
              match ShortestFrom(fullNumber, 0, i, perCode)
              case Some(k) => Some((Decimal.ParseUInt64(fullNumber[..k]).value, fullNumber[k..]))
              case None => Some((0, nationalNumber))
    decreases MaxLengthCountryCode + 1 - i
  {
    if !(i > MaxLengthCountryCode || i > |fullNumber|) && !KnownCodeAt(fullNumber, 0, i, perCode) {
      AsWrittenFromAgrees(fullNumber, i + 1, nationalNumber, perCode);
    }
  }

  /** After a "+", a one-digit code leaves its digit in the national number: "+1234" gives 1 and "1234", not "234". */
  lemma AsWrittenKeepsCodeDigit(t: Territory)
    ensures PotentialCountryCodeAsWritten("+1234", "", map[1 := t]) == Some((1, "1234"))
    ensures PotentialCountryCode("+1234", "", map[1 := t]) == (1, "234")
  {
    assert "+1234"[1..2] == "1";
    assert Decimal.DigitsValue("1") == 1 by {
      assert "1"[..0] == "";
    }
    assert KnownCodeAt("+1234", 1, 1, map[1 := t]);
  }

  /** After a "+", a number too short for the lengths tried reads past its end: "+12" without known codes. */
  lemma AsWrittenOverrun()
    ensures PotentialCountryCodeAsWritten("+12", "", map[]) == None
  {
    assert !KnownCodeAt("+12", 1, 1, map[]);
    assert !KnownCodeAt("+12", 1, 2, map[]);
  }

  // `checkNumberType(nationalNumber:metadata:)`.

  /** The `nationalNumberPattern` of an optional description (`desc?.nationalNumberPattern`). */
  function PatternOf(desc: Option<Desc>): Option<string> {
    if desc.Some? then desc.value.nationalNumberPattern else None
  }

  /** `isNumberMatchingDesc`: the description's pattern matches the whole number. */
  function IsNumberMatchingDesc(e: Engine, nationalNumber: string, desc: Option<Desc>): (b: bool)
    ensures b ==> PatternOf(desc).Some?
    ensures b == MatchesEntirely(e, PatternOf(desc), nationalNumber)
  {
    MatchesEntirely(e, PatternOf(desc), nationalNumber)
  }

  /** The general description exists, has a non-blank pattern, and matches the number. */
  predicate GeneralMatches(e: Engine, nationalNumber: string, t: Territory) {
    t.generalDesc.Some? && HasValue(t.generalDesc.value.nationalNumberPattern) && IsNumberMatchingDesc(e, nationalNumber, t.generalDesc)
  }

  /** `checkNumberType(nationalNumber:metadata:)`: Unknown unless the general description matches. */
  function CheckNumberType(e: Engine, nationalNumber: string, t: Territory): (r: PhoneNumberType)
    ensures r != Unknown ==> GeneralMatches(e, nationalNumber, t)
    ensures GeneralMatches(e, nationalNumber, t) ==> r == SpecificType(e, nationalNumber, t)
  {
    if t.generalDesc.None? then Unknown
    else if !HasValue(t.generalDesc.value.nationalNumberPattern) || !IsNumberMatchingDesc(e, nationalNumber, t.generalDesc) then Unknown
    else SpecificType(e, nationalNumber, t)
  }

  /** The chain of tests after the general description, in the source's order. */
  function SpecificType(e: Engine, nationalNumber: string, t: Territory): PhoneNumberType {
    if IsNumberMatchingDesc(e, nationalNumber, t.pager) then Pager
    else if IsNumberMatchingDesc(e, nationalNumber, t.premiumRate) then PremiumRate
    else if IsNumberMatchingDesc(e, nationalNumber, t.tollFree) then TollFree
    else if IsNumberMatchingDesc(e, nationalNumber, t.sharedCost) then SharedCost
    else if IsNumberMatchingDesc(e, nationalNumber, t.voip) then VOIP
    else if IsNumberMatchingDesc(e, nationalNumber, t.personalNumber) then PersonalNumber
    else if IsNumberMatchingDesc(e, nationalNumber, t.uan) then UAN
    else if IsNumberMatchingDesc(e, nationalNumber, t.voicemail) then Voicemail
    else FixedOrMobileType(e, nationalNumber, t)
  }

  /**
   * The last tests: fixed line, reported as fixed-or-mobile when the mobile pattern is the
   * same or also matches; then mobile; else Unknown.
   */
  function FixedOrMobileType(e: Engine, nationalNumber: string, t: Territory): (r: PhoneNumberType)
    ensures var fixed := IsNumberMatchingDesc(e, nationalNumber, t.fixedLine);
            var mobile := IsNumberMatchingDesc(e, nationalNumber, t.mobile);
            && (r == FixedOrMobile <==> fixed && (PatternOf(t.fixedLine) == PatternOf(t.mobile) || mobile))
            && (r == FixedLine <==> fixed && PatternOf(t.fixedLine) != PatternOf(t.mobile) && !mobile)
            && (r == Mobile <==> !fixed && mobile)
            && (r == Unknown <==> !fixed && !mobile)
  {
    if IsNumberMatchingDesc(e, nationalNumber, t.fixedLine) then
      if PatternOf(t.fixedLine) == PatternOf(t.mobile) then FixedOrMobile
      else if IsNumberMatchingDesc(e, nationalNumber, t.mobile) then FixedOrMobile
      else FixedLine
    else if IsNumberMatchingDesc(e, nationalNumber, t.mobile) then Mobile
    else Unknown
  }

  /** The types checked before fixed line and mobile, in the order they are checked. */
  function OrderedTypes(t: Territory): seq<(PhoneNumberType, Option<Desc>)> {
    [(Pager, t.pager), (PremiumRate, t.premiumRate), (TollFree, t.tollFree), (SharedCost, t.sharedCost),
     (VOIP, t.voip), (PersonalNumber, t.personalNumber), (UAN, t.uan), (Voicemail, t.voicemail)]
  }

  /** The first type of the list whose description matches the number. */
  function FirstMatching(e: Engine, nationalNumber: string, types: seq<(PhoneNumberType, Option<Desc>)>): (r: Option<PhoneNumberType>)
    ensures r.Some? ==> exists k :: 0 <= k < |types| && types[k].0 == r.value && IsNumberMatchingDesc(e, nationalNumber, types[k].1)
    ensures r.None? ==> forall k :: 0 <= k < |types| ==> !IsNumberMatchingDesc(e, nationalNumber, types[k].1)
  {
    if types == [] then None
    else if IsNumberMatchingDesc(e, nationalNumber, types[0].1) then Some(types[0].0)
    else
      var r := FirstMatching(e, nationalNumber, types[1..]);
      assert forall k :: 1 <= k < |types| ==> types[k] == types[1..][k - 1];
      r
  }

  /**
   * The classification as an ordered list: Unknown unless the general description matches;
   * then the first of pager, premium rate, toll free, shared cost, VOIP, personal number, UAN
   * and voicemail that matches; then the fixed-line and mobile tests.
   */
  lemma {:induction false} CheckNumberTypeOrder(e: Engine, nationalNumber: string, t: Territory)
    ensures !GeneralMatches(e, nationalNumber, t) ==> CheckNumberType(e, nationalNumber, t) == Unknown
    ensures GeneralMatches(e, nationalNumber, t) ==>
              CheckNumberType(e, nationalNumber, t) ==
                match FirstMatching(e, nationalNumber, OrderedTypes(t))
                case Some(kind) => kind
                case None => FixedOrMobileType(e, nationalNumber, t)
  {
    EarlierTypesOrder(e, nationalNumber, t);
    LaterTypesOrder(e, nationalNumber, t);
  }

  /** The first four types of the ordered list are tried as the chain tries them. */
  lemma EarlierTypesOrder(e: Engine, n: string, t: Territory)
    ensures FirstMatching(e, n, OrderedTypes(t)) ==
              if IsNumberMatchingDesc(e, n, t.pager) then Some(Pager)
              else if IsNumberMatchingDesc(e, n, t.premiumRate) then Some(PremiumRate)
              else if IsNumberMatchingDesc(e, n, t.tollFree) then Some(TollFree)
              else if IsNumberMatchingDesc(e, n, t.sharedCost) then Some(SharedCost)
              else FirstMatching(e, n, OrderedTypes(t)[4..])
  {
    var types := OrderedTypes(t);
    FirstMatchingStep(e, n, types);
    FirstMatchingStep(e, n, types[1..]);
    FirstMatchingStep(e, n, types[2..]);
    FirstMatchingStep(e, n, types[3..]);
  }

  /** The last four types of the ordered list are tried as the chain tries them. */
  lemma LaterTypesOrder(e: Engine, n: string, t: Territory)
    ensures FirstMatching(e, n, OrderedTypes(t)[4..]) ==
              if IsNumberMatchingDesc(e, n, t.voip) then Some(VOIP)
              else if IsNumberMatchingDesc(e, n, t.personalNumber) then Some(PersonalNumber)
              else if IsNumberMatchingDesc(e, n, t.uan) then Some(UAN)
              else if IsNumberMatchingDesc(e, n, t.voicemail) then Some(Voicemail)
              else None
  {
    var types := OrderedTypes(t);
    FirstMatchingStep(e, n, types[4..]);
    FirstMatchingStep(e, n, types[5..]);
    FirstMatchingStep(e, n, types[6..]);
    FirstMatchingStep(e, n, types[7..]);
    assert types[8..] == [];
  }

  /** One step of the ordered search. */
  lemma FirstMatchingStep(e: Engine, nationalNumber: string, types: seq<(PhoneNumberType, Option<Desc>)>)
    requires types != []
    ensures FirstMatching(e, nationalNumber, types) ==
              if IsNumberMatchingDesc(e, nationalNumber, types[0].1) then Some(types[0].0) else FirstMatching(e, nationalNumber, types[1..])
  {
  }

  // Prefix stripping.

  /** The text of the first match of the international-dialling pattern, when it starts the number. */
  function IddMatchedText(e: Engine, number: string, iddPattern: string): (t: string)
    requires StringPositionByRegex(e, iddPattern, number) == 0
    ensures |t| <= |number| && number == t + number[|t|..]
  {
    var t := Substring(number, e.matches(iddPattern, number)[0].range);
    assert t == number[..|t|];
    t
  }

  /** The first group of digits in `remain` is not empty and normalises to "0". */
  predicate ZeroGroupLeads(e: Engine, remain: string) {
    var matchedGroups := e.matches(CapturingDigitPattern, remain);
    matchedGroups != [] && |Substring(remain, matchedGroups[0].range)| > 0
    && NormalizePhoneNumber(Substring(remain, matchedGroups[0].range)) == "0"
  }

  /**
   * `parsePrefixAsIdd`: when the international-dialling pattern matches at the start, the
   * matched text is cut off, unless the first digit group after it normalises to "0"; the
   * answer says whether the number was changed.
   */
  function ParsePrefixAsIdd(e: Engine, number: string, iddPattern: string): (r: (bool, string))
    ensures r.0 <==> StringPositionByRegex(e, iddPattern, number) == 0 && e.compiles(CapturingDigitPattern)
                     && !ZeroGroupLeads(e, number[|IddMatchedText(e, number, iddPattern)|..])
    ensures r.0 ==> number == IddMatchedText(e, number, iddPattern) + r.1
    ensures !r.0 ==> r.1 == number
  {
    if StringPositionByRegex(e, iddPattern, number) != 0 then (false, number)
    else
      var matched := e.matches(iddPattern, number)[0];
      var matchEnd := |Substring(number, matched.range)|;
      var remainString := number[matchEnd..];
      if !e.compiles(CapturingDigitPattern) then (false, number)
      else
        var matchedGroups := e.matches(CapturingDigitPattern, remainString);
        if matchedGroups != [] && |Substring(remainString, matchedGroups[0].range)| > 0
           && NormalizePhoneNumber(Substring(remainString, matchedGroups[0].range)) == "0"
        then (false, number)
        else (true, remainString)
  }

  /**
   * `stripInternationalPrefixAndNormalize`: leading plus signs are removed (from a number with
   * a plus sign); otherwise the number is normalised and then an international prefix, when
   * the territory has one, is stripped (dialled with IDD) or not (default country).
   */
  function StripInternationalPrefixAndNormalize(e: Engine, number: string, possibleIddPrefix: Option<string>): (r: (CountryCodeSource, string))
    ensures r.0 == NumberWithPlusSign <==> MatchesAtStart(e, LeadingPlusCharsPattern, number)
    ensures r.0 == NumberWithPlusSign ==> r.1 == ReplaceStringByRegex(e, LeadingPlusCharsPattern, number, "")
    ensures r.0 == NumberWithoutPlusSign ==> possibleIddPrefix.None? && r.1 == NormalizePhoneNumber(number)
    ensures r.0 == DefaultCountry ==> possibleIddPrefix.Some? && r.1 == NormalizePhoneNumber(number)
    ensures r.0 == NumberWithIDD ==> possibleIddPrefix.Some?
  {
    if MatchesAtStart(e, LeadingPlusCharsPattern, number) then
      (NumberWithPlusSign, ReplaceStringByRegex(e, LeadingPlusCharsPattern, number, ""))
    else
      var normalized := NormalizePhoneNumber(number);
      if possibleIddPrefix.None? then (NumberWithoutPlusSign, normalized)
      else
        var prefixResult := ParsePrefixAsIdd(e, normalized, possibleIddPrefix.value);
        if prefixResult.0 then (NumberWithIDD, prefixResult.1) else (DefaultCountry, normalized)
  }

  /**
   * The number `stripNationalPrefix` would produce from the first match of the national
   * prefix: the transform rule applied when the last capture group has text, else the number
   * after the matched text.
   */
  function TransformedNumber(e: Engine, number: string, t: Territory, prefixPattern: string, firstMatch: Match): string {
    var firstMatchString := Substring(number, firstMatch.range);
    var firstRange := firstMatch.RangeAtIndex(firstMatch.NumberOfRanges() - 1);
    var firstMatchStringWithGroup :=
      if firstRange.Some? && firstRange.value.location < |number| then Substring(number, firstRange.value) else "";
    if t.nationalPrefixTransformRule.Some? && HasValue(Some(firstMatchStringWithGroup))
    then ReplaceFirstStringByRegex(e, prefixPattern, number, t.nationalPrefixTransformRule.value)
    else number[|firstMatchString|..]
  }

  /** The national prefix for parsing of `t` compiles and matches the number. */
  predicate NationalPrefixMatches(e: Engine, number: string, t: Territory) {
    && t.nationalPrefixForParsing.Some?
    && e.compiles(NationalPrefixParsingPattern(t.nationalPrefixForParsing.value))
    && e.matches(NationalPrefixParsingPattern(t.nationalPrefixForParsing.value), number) != []
  }

  /** The general pattern accepts the number but not its transformed form. */
  predicate LosesGeneralMatch(e: Engine, t: Territory, number: string, transformedNumber: string) {
    var rule := PatternOf(t.generalDesc);
    HasValue(rule) && MatchesEntirely(e, rule, number) && !MatchesEntirely(e, rule, transformedNumber)
  }

  /**
   * `stripNationalPrefix`: without a national prefix for parsing, a pattern that does not
   * compile or a match, the number is kept; otherwise it becomes the transformed number,
   * unless that would turn a number the general pattern accepts into one it rejects.
   */
  function StripNationalPrefix(e: Engine, number: string, t: Territory): (r: string)
    ensures !NationalPrefixMatches(e, number, t) ==> r == number
    ensures NationalPrefixMatches(e, number, t) ==>
              var prefixPattern := NationalPrefixParsingPattern(t.nationalPrefixForParsing.value);
              var transformedNumber := TransformedNumber(e, number, t, prefixPattern, e.matches(prefixPattern, number)[0]);
              && (LosesGeneralMatch(e, t, number, transformedNumber) ==> r == number)
              && (!LosesGeneralMatch(e, t, number, transformedNumber) ==> r == transformedNumber)
    ensures var rule := PatternOf(t.generalDesc);
            HasValue(rule) && MatchesEntirely(e, rule, number) ==> MatchesEntirely(e, rule, r)
  {
    if t.nationalPrefixForParsing.None? then number
    else
      var prefixPattern := NationalPrefixParsingPattern(t.nationalPrefixForParsing.value);
      match RegexMatches(e, prefixPattern, number)
      case Failure(_) => number
      case Success(matches) =>
        if matches == [] then number
        else
          var nationalNumberRule := PatternOf(t.generalDesc);
          var transformedNumber := TransformedNumber(e, number, t, prefixPattern, matches[0]);
          if HasValue(nationalNumberRule) && MatchesEntirely(e, nationalNumberRule, number) && !MatchesEntirely(e, nationalNumberRule, transformedNumber)
          then number
          else transformedNumber
  }

  /**
   * Without a transform rule the national prefix is simply cut: the transformed number is
   * what follows the matched text.
   */
  lemma CutWithoutTransformRule(e: Engine, number: string, t: Territory)
    requires NationalPrefixMatches(e, number, t) && t.nationalPrefixTransformRule.None?
    requires var prefixPattern := NationalPrefixParsingPattern(t.nationalPrefixForParsing.value);
             e.matches(prefixPattern, number)[0].range.location == 0
    ensures var prefixPattern := NationalPrefixParsingPattern(t.nationalPrefixForParsing.value);
            var matched := Substring(number, e.matches(prefixPattern, number)[0].range);
            number == matched + TransformedNumber(e, number, t, prefixPattern, e.matches(prefixPattern, number)[0])
  {
    var prefixPattern := NationalPrefixParsingPattern(t.nationalPrefixForParsing.value);
    var matched := Substring(number, e.matches(prefixPattern, number)[0].range);
    assert matched == number[..|matched|];
  }

  /**
   * `extractCountryCode`: 0 without an international prefix. A number dialled with a plus sign
   * or IDD is too short with at most `minLengthForNSN` characters left and otherwise yields
   * its potential country code. A number in default-country form that starts with the
   * territory's own code yields that code when the rest, stripped of its national prefix, is
   * the better national number.
   */
  function ExtractCountryCode(e: Engine, number: string, nationalNumber: string, t: Territory, perCode: map<nat, Territory>)
    : (r: Result<(nat, string), PhoneNumberError>)
    ensures r.Failure? ==> r.error == TooShort
    ensures t.internationalPrefix.None? ==> r == Success((0, nationalNumber))
  {
    if t.internationalPrefix.None? then Success((0, nationalNumber))
    else
      var (countryCodeSource, fullNumber) := StripInternationalPrefixAndNormalize(e, number, t.internationalPrefix);
      if countryCodeSource != DefaultCountry then
        if |fullNumber| <= MinLengthForNSN then Failure(TooShort)
        else
          var (potentialCountryCode, newNational) := PotentialCountryCode(fullNumber, nationalNumber, perCode);
          if potentialCountryCode != 0 then Success((potentialCountryCode, newNational)) else Success((0, newNational))
      else
        var defaultCountryCode := Decimal.NatToString(t.countryCode);
        if |defaultCountryCode| <= |fullNumber| && fullNumber[..|defaultCountryCode|] == defaultCountryCode then
          var potentialNationalNumber := fullNumber[|defaultCountryCode|..];
          if t.generalDesc.None? || t.generalDesc.value.nationalNumberPattern.None? || t.generalDesc.value.possibleNumberPattern.None? then
            Success((0, nationalNumber))
          else
            var validNumberPattern := t.generalDesc.value.nationalNumberPattern.value;
            var possibleNumberPattern := t.generalDesc.value.possibleNumberPattern.value;
            var stripped := StripNationalPrefix(e, potentialNationalNumber, t);
            if (!MatchesEntirely(e, Some(validNumberPattern), fullNumber) && MatchesEntirely(e, Some(validNumberPattern), stripped))
               || !TestStringLengthAgainstPattern(e, possibleNumberPattern, fullNumber)
            then
              match Decimal.ParseUInt64(defaultCountryCode)
              case Some(countryCode) => Success((countryCode, stripped))
              case None => Success((0, stripped))
            else Success((0, nationalNumber))
        else Success((0, nationalNumber))
  }

  /**
   * `extractCountryCode` fails exactly when a number with a plus sign or IDD has at most two
   * characters left, and a number in default-country form never changes the national number
   * unless it yields the territory's own code.
   */
  lemma ExtractCountryCodeSpec(e: Engine, number: string, nationalNumber: string, t: Territory, perCode: map<nat, Territory>)
    requires t.internationalPrefix.Some?
    requires t.countryCode < Decimal.UInt64Limit
    ensures var (source, fullNumber) := StripInternationalPrefixAndNormalize(e, number, t.internationalPrefix);
            ExtractCountryCode(e, number, nationalNumber, t, perCode).Failure? <==> source != DefaultCountry && |fullNumber| <= MinLengthForNSN
    ensures var (source, fullNumber) := StripInternationalPrefixAndNormalize(e, number, t.internationalPrefix);
            var r := ExtractCountryCode(e, number, nationalNumber, t, perCode);
            source == DefaultCountry && r.Success? && r.value.1 != nationalNumber ==> r.value.0 == t.countryCode
    ensures var (source, fullNumber) := StripInternationalPrefixAndNormalize(e, number, t.internationalPrefix);
            var r := ExtractCountryCode(e, number, nationalNumber, t, perCode);
            source != DefaultCountry && |fullNumber| > MinLengthForNSN ==>
              r == Success(PotentialCountryCode(fullNumber, nationalNumber, perCode))
  {
    Decimal.ParseNatToString(t.countryCode);
  }

  /** A number whose international prefix was stripped is made of digits only, so it has no "+". */
  lemma IddStrippedIsDigits(e: Engine, number: string, iddPrefix: string)
    ensures var (source, fullNumber) := StripInternationalPrefixAndNormalize(e, number, Some(iddPrefix));
            source == NumberWithIDD ==> forall k :: 0 <= k < |fullNumber| ==> PhoneFormatting.IsDigit(fullNumber[k])
  {
    var (source, fullNumber) := StripInternationalPrefixAndNormalize(e, number, Some(iddPrefix));
    if source == NumberWithIDD {
      var normalized := NormalizePhoneNumber(number);
      var matched := IddMatchedText(e, normalized, iddPrefix);
      assert normalized == matched + fullNumber;
      forall k | 0 <= k < |fullNumber|
        ensures PhoneFormatting.IsDigit(fullNumber[k])
      {
        assert fullNumber[k] == normalized[|matched| + k];
      }
    }
  }

  /**
   * Where `extractCountryCode` searches for a code, the number has lost its "+", and there the
   * intended search it is modelled with is what `extractPotentialCountryCode` as written
   * computes: a number with IDD always, a number with a plus sign once the leading plus
   * characters are gone.
   */
  lemma ExtractCountryCodeAsWritten(e: Engine, number: string, nationalNumber: string, t: Territory, perCode: map<nat, Territory>)
    requires t.internationalPrefix.Some?
    requires var (source, fullNumber) := StripInternationalPrefixAndNormalize(e, number, t.internationalPrefix);
             source != DefaultCountry && |fullNumber| > MinLengthForNSN
             && (source == NumberWithPlusSign ==> fullNumber[0] != '+')
    ensures var (source, fullNumber) := StripInternationalPrefixAndNormalize(e, number, t.internationalPrefix);
            var asWritten := PotentialCountryCodeAsWritten(fullNumber, nationalNumber, perCode);
            asWritten.Some? && ExtractCountryCode(e, number, nationalNumber, t, perCode) == Success(asWritten.value)
  {
    var (source, fullNumber) := StripInternationalPrefixAndNormalize(e, number, t.internationalPrefix);
    IddStrippedIsDigits(e, number, t.internationalPrefix.value);
    assert fullNumber[0] != '+' by {
      if source == NumberWithIDD {
        assert PhoneFormatting.IsDigit(fullNumber[0]);
      }
    }
    AsWrittenAgreesWithoutPlus(fullNumber, nationalNumber, perCode);
  }
}
