/**
 * PhoneNumberKit's metadata: the territory, number-description and number-format records
 * built from the bundled JSON (`MetadataTypes.swift`), and the `Metadata` object that indexes
 * the territories by country code and by region code (`Metadata.swift`). Reading the JSON file
 * is outside the model; the decoded JSON is given as a `Json` value.
 */
module PhoneMetadata {
  import opened Wrappers
  import Decimal
  import PhoneRegex

  /** A decoded JSON value as Foundation presents it. */
  datatype Json = JString(text: string) | JArray(elements: seq<Json>) | JDict(fields: map<string, Json>) | JOther

  /** `dict?.valueForKey(key) as? String`. */
  function StringField(dict: Option<map<string, Json>>, key: string): (r: Option<string>)
    ensures r.Some? <==> dict.Some? && key in dict.value && dict.value[key].JString?
    ensures r.Some? ==> r.value == dict.value[key].text
  {
    if dict.Some? && key in dict.value && dict.value[key].JString? then Some(dict.value[key].text) else None
  }

  /** `value as? NSDictionary`. */
  function AsDict(value: Json): (r: Option<map<string, Json>>)
    ensures r.Some? <==> value.JDict?
  {
    if value.JDict? then Some(value.fields) else None
  }

  // `NSString.boolValue`.

  predicate IsBoolSkipped(c: char) {
    c == ' ' || '\t' <= c <= '\r'
  }

  /** The text after leading white space, one optional sign and leading zeros. */
  function BoolBody(s: string): (b: string)
    ensures |b| <= |s|
    ensures b != [] ==> b[0] != '0'
  {
    var t := SkipWhile(s, 0);
    var u := if |t| > 0 && (t[0] == '+' || t[0] == '-') then t[1..] else t;
    SkipWhile(u, 1)
  }

  /** `s` without its leading white space (`mode` 0) or its leading zeros (`mode` 1). */
  function SkipWhile(s: string, mode: nat): (t: string)
    ensures |t| <= |s|
    ensures mode == 1 && t != [] ==> t[0] != '0'
    ensures mode == 0 && t != [] ==> !IsBoolSkipped(t[0])
  {
    if s != [] && (if mode == 0 then IsBoolSkipped(s[0]) else s[0] == '0') then SkipWhile(s[1..], mode) else s
  }

  /** `boolValue`: true when the text then starts with Y, y, T, t or a digit 1-9. */
  function BoolValue(s: string): (b: bool)
    ensures b ==> s != [] && BoolBody(s) != []
    ensures b ==> BoolBody(s)[0] in {'Y', 'y', 'T', 't', '1', '2', '3', '4', '5', '6', '7', '8', '9'}
  {
    var body := BoolBody(s);
    body != [] && (body[0] in {'Y', 'y', 'T', 't'} || '1' <= body[0] <= '9')
  }

  /** `"true"` and `"1"` read as true, `"false"`, `"0"` and the empty text as false. */
  lemma BoolValueExamples()
    ensures BoolValue("true") && BoolValue("1") && BoolValue(" +01")
    ensures !BoolValue("false") && !BoolValue("0") && !BoolValue("")
  {
    assert SkipWhile("true", 0) == "true";
    assert SkipWhile("true", 1) == "true";
    assert SkipWhile("1", 0) == "1";
    assert SkipWhile("1", 1) == "1";
    assert SkipWhile(" +01", 0) == SkipWhile("+01", 0) == "+01";
    assert SkipWhile("01", 1) == SkipWhile("1", 1) == "1";
    assert SkipWhile("false", 0) == "false";
    assert SkipWhile("false", 1) == "false";
    assert SkipWhile("0", 0) == "0";
    assert SkipWhile("0", 1) == SkipWhile("", 1) == "";
  }

  /** `MetadataPhoneNumberDesc`. */
  datatype Desc = Desc(exampleNumber: Option<string>, nationalNumberPattern: Option<string>, possibleNumberPattern: Option<string>)

  /** `MetadataPhoneNumberDesc(jsondDict:)`: each field read from the dictionary; every field nil without one. */
  function DescOf(dict: Option<map<string, Json>>): (d: Desc)
    ensures dict.None? ==> d == Desc(None, None, None)
    ensures d.nationalNumberPattern == StringField(dict, "nationalNumberPattern")
    ensures d.possibleNumberPattern == StringField(dict, "possibleNumberPattern")
    ensures d.exampleNumber == StringField(dict, "exampleNumber")
  {
    Desc(StringField(dict, "exampleNumber"), StringField(dict, "nationalNumberPattern"), StringField(dict, "possibleNumberPattern"))
  }

  /** `MetadataPhoneNumberFormat`. */
  datatype Format = Format(
    pattern: Option<string>,
    format: Option<string>,
    intlFormat: Option<string>,
    leadingDigitsPatterns: seq<string>,
    nationalPrefixFormattingRule: Option<string>,
    nationalPrefixOptionalWhenFormatting: bool,
    domesticCarrierCodeFormattingRule: Option<string>)

  /** Whether every element of an array is a string (`as? [String]`). */
  predicate AllStrings(elements: seq<Json>) {
    forall k :: 0 <= k < |elements| ==> elements[k].JString?
  }

  /** The texts of an array of strings, in order. */
  function Texts(elements: seq<Json>): (r: seq<string>)
    requires AllStrings(elements)
    ensures |r| == |elements|
    ensures forall k :: 0 <= k < |r| ==> r[k] == elements[k].text
  {
    if elements == [] then [] else Texts(elements[..|elements| - 1]) + [elements[|elements| - 1].text]
  }

  /**
   * The `leadingDigitsPatterns` for the `leadingDigits` entry: the strings of an array of
   * strings, or the one string; empty when absent or of any other shape.
   */
  function LeadingDigitsOf(value: Option<Json>): (r: seq<string>)
    ensures value.None? ==> r == []
    ensures value.Some? && value.value.JString? ==> r == [value.value.text]
    ensures value.Some? && value.value.JArray? && AllStrings(value.value.elements) ==> r == Texts(value.value.elements)
    ensures value.Some? && value.value.JArray? && !AllStrings(value.value.elements) ==> r == []
    ensures value.Some? && (value.value.JDict? || value.value.JOther?) ==> r == []
  {
    match value
    case None => []
    case Some(JArray(elements)) => if AllStrings(elements) then Texts(elements) else []
    case Some(JString(text)) => [text]
    case Some(_) => []
  }

  /** The flag read by `boolValue` from a string entry; false when absent or not a string. */
  function FlagField(dict: Option<map<string, Json>>, key: string): (b: bool)
    ensures StringField(dict, key).None? ==> !b
    ensures StringField(dict, key).Some? ==> b == BoolValue(StringField(dict, key).value)
  {
    match StringField(dict, key)
    case Some(s) => BoolValue(s)
    case None => false
  }

  /** What `MetadataPhoneNumberFormat(jsondDict:)` builds. */
  function FormatOf(dict: Option<map<string, Json>>): Format {
    Format(StringField(dict, "pattern"), StringField(dict, "format"), StringField(dict, "intlFormat"),
           LeadingDigitsOf(if dict.Some? && "leadingDigits" in dict.value then Some(dict.value["leadingDigits"]) else None),
           StringField(dict, "nationalPrefixFormattingRule"),
           FlagField(dict, "nationalPrefixOptionalWhenFormatting"),
           StringField(dict, "carrierCodeFormattingRule"))
  }

  /**
   * `MetadataPhoneNumberFormat(jsondDict:)`: the fields are read one by one and the leading
   * digits are collected in a loop.
   */
  method FormatFromJson(dict: Option<map<string, Json>>) returns (f: Format)
    ensures f == FormatOf(dict)
  {
    var leadingDigits: seq<string> := [];
    if dict.Some? && "leadingDigits" in dict.value {
      var leadingDigitsPatterns := dict.value["leadingDigits"];
      if leadingDigitsPatterns.JArray? && AllStrings(leadingDigitsPatterns.elements) {
        var leadingDigitArray := leadingDigitsPatterns.elements;
        for i := 0 to |leadingDigitArray|
          invariant leadingDigits == Texts(leadingDigitArray[..i])
        {
          assert leadingDigitArray[..i + 1][..i] == leadingDigitArray[..i];
          leadingDigits := leadingDigits + [leadingDigitArray[i].text];
        }
        assert leadingDigitArray[..|leadingDigitArray|] == leadingDigitArray;
      }
      if leadingDigitsPatterns.JString? {
        leadingDigits := leadingDigits + [leadingDigitsPatterns.text];
      }
    }
    var optional := false;
    if StringField(dict, "nationalPrefixOptionalWhenFormatting").Some? {
      optional := BoolValue(StringField(dict, "nationalPrefixOptionalWhenFormatting").value);
    }
    f := Format(StringField(dict, "pattern"), StringField(dict, "format"), StringField(dict, "intlFormat"),
                leadingDigits, StringField(dict, "nationalPrefixFormattingRule"), optional,
                StringField(dict, "carrierCodeFormattingRule"));
  }

  /** The defaults of a format: nothing given, nothing set, and not optional. */
  lemma FormatDefaults()
    ensures FormatOf(None) == Format(None, None, None, [], None, false, None)
    ensures FormatOf(Some(map[])).leadingDigitsPatterns == [] && !FormatOf(Some(map[])).nationalPrefixOptionalWhenFormatting
  {
  }

  /** `MetadataTerritory`. */
  datatype Territory = Territory(
    codeID: string,
    countryCode: nat,
    internationalPrefix: Option<string>,
    mainCountryForCode: bool,
    nationalPrefix: Option<string>,
    nationalPrefixFormattingRule: Option<string>,
    nationalPrefixForParsing: Option<string>,
    nationalPrefixTransformRule: Option<string>,
    preferredExtnPrefix: Option<string>,
    emergency: Option<Desc>,
    fixedLine: Option<Desc>,
    generalDesc: Option<Desc>,
    mobile: Option<Desc>,
    pager: Option<Desc>,
    personalNumber: Option<Desc>,
    premiumRate: Option<Desc>,
    sharedCost: Option<Desc>,
    tollFree: Option<Desc>,
    voicemail: Option<Desc>,
    voip: Option<Desc>,
    uan: Option<Desc>,
    numberFormats: seq<Format>,
    leadingDigits: Option<string>)

  /** `jsondDict.valueForKey(key) as? NSDictionary`. */
  function DictField(dict: map<string, Json>, key: string): Option<map<string, Json>> {
    if key in dict then AsDict(dict[key]) else None
  }

  /** A format from an array entry inherits the territory's formatting rule when it has none. */
  function Inherited(f: Format, rule: Option<string>): (g: Format)
    ensures g.nationalPrefixFormattingRule == if f.nationalPrefixFormattingRule.None? then rule else f.nationalPrefixFormattingRule
    ensures g == f.(nationalPrefixFormattingRule := g.nationalPrefixFormattingRule)
  {
    if f.nationalPrefixFormattingRule.None? then f.(nationalPrefixFormattingRule := rule) else f
  }

  /** The formats built from the elements of an `numberFormat` array, in order. */
  function ArrayFormats(elements: seq<Json>, rule: Option<string>): (fs: seq<Format>)
    ensures |fs| == |elements|
  {
    if elements == [] then []
    else ArrayFormats(elements[..|elements| - 1], rule) + [Inherited(FormatOf(AsDict(elements[|elements| - 1])), rule)]
  }

  /** The `numberFormat` entry of a dictionary-valued `availableFormats` entry. */
  function AvailableFormats(dict: map<string, Json>): Option<Json> {
    if "availableFormats" in dict && dict["availableFormats"].JDict? && "numberFormat" in dict["availableFormats"].fields
    then Some(dict["availableFormats"].fields["numberFormat"])
    else None
  }

  /** The territory's formats: from an array with inheritance, from a single dictionary without. */
  function NumberFormatsOf(dict: map<string, Json>): seq<Format> {
    match AvailableFormats(dict)
    case Some(JArray(elements)) => ArrayFormats(elements, StringField(Some(dict), "nationalPrefixFormattingRule"))
    case Some(JDict(fields)) => [FormatOf(Some(fields))]
    case _ => []
  }

  /** `nationalPrefixForParsing`: the given entry, or `nationalPrefix` when it is absent. */
  function PrefixForParsing(parsing: Option<string>, prefix: Option<string>): Option<string> {
    if parsing.None? && prefix.Some? then prefix else parsing
  }

  /**
   * What `MetadataTerritory(jsondDict:)` builds; None where the source stops the program
   * (an `id` that is not a string, a `countryCode` that is not the text of a 64-bit number).
   */
  function TerritoryOf(dict: map<string, Json>): Option<Territory> {
    var code := StringField(Some(dict), "countryCode");
    var id := StringField(Some(dict), "id");
    if id.None? || code.None? || Decimal.ParseUInt64(code.value).None? then None
    else Some(TerritoryWith(dict, id.value, Decimal.ParseUInt64(code.value).value, NumberFormatsOf(dict)))
  }

  /** The territory with the given code ID, country code and formats and every other field read from `dict`. */
  function TerritoryWith(dict: map<string, Json>, codeID: string, countryCode: nat, numberFormats: seq<Format>): Territory {
    var field := (key: string) => StringField(Some(dict), key);
    Territory(
      codeID, countryCode,
      field("internationalPrefix"), FlagField(Some(dict), "mainCountryForCode"),
      field("nationalPrefix"), field("nationalPrefixFormattingRule"),
      PrefixForParsing(field("nationalPrefixForParsing"), field("nationalPrefix")),
      field("nationalPrefixTransformRule"), field("preferredExtnPrefix"),
      Some(DescOf(DictField(dict, "emergency"))), Some(DescOf(DictField(dict, "fixedLine"))),
      Some(DescOf(DictField(dict, "generalDesc"))), Some(DescOf(DictField(dict, "mobile"))),
      Some(DescOf(DictField(dict, "pager"))), Some(DescOf(DictField(dict, "personalNumber"))),
      Some(DescOf(DictField(dict, "premiumRate"))), Some(DescOf(DictField(dict, "sharedCost"))),
      Some(DescOf(DictField(dict, "tollFree"))), Some(DescOf(DictField(dict, "voicemail"))),
      Some(DescOf(DictField(dict, "voip"))), Some(DescOf(DictField(dict, "uan"))),
      numberFormats, field("leadingDigits"))
  }

  /**
   * `MetadataTerritory(jsondDict:)`: the fields are read and defaulted, and the formats of an
   * array are built and appended one by one.
   */
  method TerritoryFromJson(dict: map<string, Json>) returns (t: Option<Territory>)
    ensures t == TerritoryOf(dict)
  {
    var code := StringField(Some(dict), "countryCode");
    var id := StringField(Some(dict), "id");
    if id.None? || code.None? || Decimal.ParseUInt64(code.value).None? {
      return None;
    }
    var rule := StringField(Some(dict), "nationalPrefixFormattingRule");
    var numberFormats: seq<Format> := [];
    var availableFormats := AvailableFormats(dict);
    if availableFormats.Some? && availableFormats.value.JArray? {
      var formatsArray := availableFormats.value.elements;
      for i := 0 to |formatsArray|
        invariant numberFormats == ArrayFormats(formatsArray[..i], rule)
      {
        var processedFormat := FormatFromJson(AsDict(formatsArray[i]));
        if processedFormat.nationalPrefixFormattingRule.None? {
          processedFormat := processedFormat.(nationalPrefixFormattingRule := rule);
        }
        assert formatsArray[..i + 1][..i] == formatsArray[..i];
        numberFormats := numberFormats + [processedFormat];
      }
      assert formatsArray[..|formatsArray|] == formatsArray;
    }
    if availableFormats.Some? && availableFormats.value.JDict? {
      var processedFormat := FormatFromJson(Some(availableFormats.value.fields));
      numberFormats := numberFormats + [processedFormat];
    }
    assert numberFormats == NumberFormatsOf(dict);
    t := Some(TerritoryWith(dict, id.value, Decimal.ParseUInt64(code.value).value, numberFormats));
  }

  /**
   * The defaulting rules of a territory: `nationalPrefixForParsing` falls back to
   * `nationalPrefix`, `mainCountryForCode` is false unless given, every description is present
   * (possibly with all fields nil), and the country code is the value of its text.
   */
  lemma TerritoryDefaults(dict: map<string, Json>)
    requires TerritoryOf(dict).Some?
    ensures var t := TerritoryOf(dict).value;
            && (StringField(Some(dict), "nationalPrefixForParsing").Some? ==> t.nationalPrefixForParsing == StringField(Some(dict), "nationalPrefixForParsing"))
            && (StringField(Some(dict), "nationalPrefixForParsing").None? ==> t.nationalPrefixForParsing == t.nationalPrefix)
            && t.nationalPrefix == StringField(Some(dict), "nationalPrefix")
            && (StringField(Some(dict), "mainCountryForCode").None? ==> !t.mainCountryForCode)
            && t.generalDesc.Some? && t.fixedLine.Some? && t.mobile.Some?
            && (DictField(dict, "generalDesc").None? ==> t.generalDesc == Some(Desc(None, None, None)))
            && t.countryCode < Decimal.UInt64Limit
  {
  }

  /**
   * Formats given as an array keep their order and take the territory's formatting rule when
   * they lack one; a format given as a single dictionary keeps its own (possibly nil) rule.
   */
  lemma FormatsInheritRule(dict: map<string, Json>)
    requires TerritoryOf(dict).Some?
    ensures var t := TerritoryOf(dict).value;
            match AvailableFormats(dict)
            case Some(JArray(elements)) =>
              && |t.numberFormats| == |elements|
              && forall k :: 0 <= k < |elements| ==>
                   var own := FormatOf(AsDict(elements[k]));
                   && t.numberFormats[k].nationalPrefixFormattingRule == (if own.nationalPrefixFormattingRule.Some? then own.nationalPrefixFormattingRule else t.nationalPrefixFormattingRule)
                   && t.numberFormats[k].pattern == own.pattern && t.numberFormats[k].format == own.format
            case Some(JDict(fields)) =>
              t.numberFormats == [FormatOf(Some(fields))]
            case _ => t.numberFormats == []
  {
    match AvailableFormats(dict)
    case Some(JArray(elements)) =>
      ArrayFormatsAt(elements, StringField(Some(dict), "nationalPrefixFormattingRule"));
    case _ =>
  }

  /** Each format built from an array is its element's format with the rule inherited. */
  lemma {:induction false} ArrayFormatsAt(elements: seq<Json>, rule: Option<string>)
    ensures forall k :: 0 <= k < |elements| ==> ArrayFormats(elements, rule)[k] == Inherited(FormatOf(AsDict(elements[k])), rule)
  {
    if elements != [] {
      ArrayFormatsAt(elements[..|elements| - 1], rule);
    }
  }

  // The indexes of `Metadata`.

  /** `metadataPerCode` after the territories of `items` were added in order. */
  function PerCodeOf(items: seq<Territory>): map<nat, Territory> {
    if items == [] then map[]
    else
      var m := PerCodeOf(items[..|items| - 1]);
      var item := items[|items| - 1];
      if item.countryCode !in m || item.mainCountryForCode then m[item.countryCode := item] else m
  }

  /** `metadataPerCountry` after the territories of `items` were added in order. */
  function PerCountryOf(items: seq<Territory>): map<string, Territory> {
    if items == [] then map[] else PerCountryOf(items[..|items| - 1])[items[|items| - 1].codeID := items[|items| - 1]]
  }

  /** The position of the first territory with country code `code`. */
  function FirstWithCode(items: seq<Territory>, code: nat): (i: Option<nat>)
    ensures i.Some? ==> i.value < |items| && items[i.value].countryCode == code
    ensures i.Some? ==> forall j :: 0 <= j < i.value ==> items[j].countryCode != code
    ensures i.None? ==> forall j :: 0 <= j < |items| ==> items[j].countryCode != code
  {
    if items == [] then None
    else if items[0].countryCode == code then Some(0)
    else match FirstWithCode(items[1..], code)
         case Some(j) => Some(j + 1)
         case None => None
  }

  /** The position of the last main territory with country code `code`. */
  function LastMainWithCode(items: seq<Territory>, code: nat): (i: Option<nat>)
    ensures i.Some? ==> i.value < |items| && items[i.value].countryCode == code && items[i.value].mainCountryForCode
    ensures i.Some? ==> forall j :: i.value < j < |items| ==> !(items[j].countryCode == code && items[j].mainCountryForCode)
    ensures i.None? ==> forall j :: 0 <= j < |items| ==> !(items[j].countryCode == code && items[j].mainCountryForCode)
  {
    if items == [] then None
    else
      var last := items[|items| - 1];
      if last.countryCode == code && last.mainCountryForCode then Some(|items| - 1)
      else LastMainWithCode(items[..|items| - 1], code)
  }

  /**
   * `metadataPerCode[c]` is present exactly when some territory has code `c`, and is then the
   * last territory with that code marked main, or the first with it when none is.
   */
  lemma {:induction false} PerCodeSpec(items: seq<Territory>, c: nat)
    ensures c in PerCodeOf(items) <==> FirstWithCode(items, c).Some?
    ensures c in PerCodeOf(items) ==>
              PerCodeOf(items)[c] == items[if LastMainWithCode(items, c).Some? then LastMainWithCode(items, c).value else FirstWithCode(items, c).value]
  {
    if items != [] {
      var init := items[..|items| - 1];
      PerCodeSpec(init, c);
      var item := items[|items| - 1];
      FirstWithCodePrefix(items, c);
      if item.countryCode == c && !item.mainCountryForCode {
        assert LastMainWithCode(items, c) == LastMainWithCode(init, c);
      }
      if item.countryCode != c {
        assert LastMainWithCode(items, c) == LastMainWithCode(init, c);
      }
    }
  }

  /** The first territory with a code in all but the last item is the first in all of them. */
  lemma FirstWithCodePrefix(items: seq<Territory>, c: nat)
    requires items != []
    ensures var init := items[..|items| - 1];
            FirstWithCode(init, c).Some? ==> FirstWithCode(items, c) == FirstWithCode(init, c)
    ensures var init := items[..|items| - 1];
            FirstWithCode(init, c).None? ==> FirstWithCode(items, c) == if items[|items| - 1].countryCode == c then Some(|items| - 1) else None
  {
    var init := items[..|items| - 1];
    var f := FirstWithCode(items, c);
    if f.Some? && f.value < |items| - 1 {
      assert items[f.value] == init[f.value];
    }
  }

  /** The position of the last territory with code ID `id`. */
  function LastWithId(items: seq<Territory>, id: string): (i: Option<nat>)
    ensures i.Some? ==> i.value < |items| && items[i.value].codeID == id
    ensures i.Some? ==> forall j :: i.value < j < |items| ==> items[j].codeID != id
    ensures i.None? ==> forall j :: 0 <= j < |items| ==> items[j].codeID != id
  {
    if items == [] then None
    else if items[|items| - 1].codeID == id then Some(|items| - 1)
    else LastWithId(items[..|items| - 1], id)
  }

  /** `metadataPerCountry[id]` is the last territory with that region code: later duplicates win. */
  lemma {:induction false} PerCountrySpec(items: seq<Territory>, id: string)
    ensures id in PerCountryOf(items) <==> LastWithId(items, id).Some?
    ensures id in PerCountryOf(items) ==> PerCountryOf(items)[id] == items[LastWithId(items, id).value]
  {
    if items != [] {
      PerCountrySpec(items[..|items| - 1], id);
    }
  }

  /** The territories with country code `code` (`filter`), in list order. */
  function WithCode(items: seq<Territory>, code: nat): (r: seq<Territory>)
    ensures forall t :: t in r <==> t in items && t.countryCode == code
    ensures |r| <= |items|
    ensures FirstWithCode(items, code).Some? <==> r != []
    ensures r != [] ==> r[0] == items[FirstWithCode(items, code).value]
  {
    if items == [] then []
    else if items[0].countryCode == code then [items[0]] + WithCode(items[1..], code)
    else WithCode(items[1..], code)
  }

  /** The main territories among `items`, in list order. */
  function MainOnly(items: seq<Territory>): (r: seq<Territory>)
    ensures forall t :: t in r <==> t in items && t.mainCountryForCode
  {
    if items == [] then []
    else if items[0].mainCountryForCode then [items[0]] + MainOnly(items[1..])
    else MainOnly(items[1..])
  }

  /** `fetchCountriesForCode`: never nil; the territories with the code, in list order. */
  function FetchCountriesForCode(items: seq<Territory>, code: nat): (r: Option<seq<Territory>>)
    ensures r.Some?
    ensures forall t :: t in r.value <==> t in items && t.countryCode == code
  {
    Some(WithCode(items, code))
  }

  /** The position of the first territory with country code `code` that is marked main. */
  function FirstMainWithCode(items: seq<Territory>, code: nat): (i: Option<nat>)
    ensures i.Some? ==> i.value < |items| && items[i.value].countryCode == code && items[i.value].mainCountryForCode
    ensures i.Some? ==> forall j :: 0 <= j < i.value ==> !(items[j].countryCode == code && items[j].mainCountryForCode)
    ensures i.None? ==> forall j :: 0 <= j < |items| ==> !(items[j].countryCode == code && items[j].mainCountryForCode)
  {
    if items == [] then None
    else if items[0].countryCode == code && items[0].mainCountryForCode then Some(0)
    else match FirstMainWithCode(items[1..], code)
         case Some(j) => Some(j + 1)
         case None => None
  }

  /** The first main territory among those with the code is the first main territory with the code overall. */
  lemma {:induction false} MainOnlyWithCode(items: seq<Territory>, code: nat)
    ensures MainOnly(WithCode(items, code)) != [] <==> FirstMainWithCode(items, code).Some?
    ensures MainOnly(WithCode(items, code)) != [] ==> MainOnly(WithCode(items, code))[0] == items[FirstMainWithCode(items, code).value]
  {
    if items != [] {
      MainOnlyWithCode(items[1..], code);
      var rest := WithCode(items[1..], code);
      var first := FirstMainWithCode(items[1..], code);
      if items[0].countryCode == code && items[0].mainCountryForCode {
        var all := [items[0]] + rest;
        assert WithCode(items, code) == all;
        assert all[1..] == rest;
        assert MainOnly(all) == [items[0]] + MainOnly(rest);
      } else {
        assert FirstMainWithCode(items, code) == if first.Some? then Some(first.value + 1) else None;
        if first.Some? {
          assert items[first.value + 1] == items[1..][first.value];
        }
        if items[0].countryCode == code {
          var all := [items[0]] + rest;
          assert WithCode(items, code) == all;
          assert all[1..] == rest;
          assert MainOnly(all) == MainOnly(rest);
        } else {
          assert WithCode(items, code) == rest;
        }
      }
    }
  }

  /**
   * `fetchMainCountryMetadataForCode`: the first territory with the code that is marked main,
   * else the first with the code, else nil.
   */
  function FetchMainCountryMetadataForCode(items: seq<Territory>, code: nat): (r: Option<Territory>)
    ensures r.None? <==> FirstWithCode(items, code).None?
    ensures r.Some? ==> r.value in items && r.value.countryCode == code
    ensures FirstMainWithCode(items, code).Some? ==> r == Some(items[FirstMainWithCode(items, code).value])
    ensures FirstMainWithCode(items, code).None? && FirstWithCode(items, code).Some? ==> r == Some(items[FirstWithCode(items, code).value])
    ensures r.Some? && !r.value.mainCountryForCode ==> forall t :: t in items && t.countryCode == code ==> !t.mainCountryForCode
  {
    MainOnlyWithCode(items, code);
    var countryResults := WithCode(items, code);
    var mainCountryResults := MainOnly(countryResults);
    if mainCountryResults != [] then
      assert mainCountryResults[0] in mainCountryResults;
      Some(mainCountryResults[0])
    else if countryResults != [] then Some(countryResults[0])
    else None
  }

  /**
   * When at most one territory per code is marked main, `metadataPerCode` and
   * `fetchMainCountryMetadataForCode` agree.
   */
  lemma PerCodeAgreesWithFetchMain(items: seq<Territory>, c: nat)
    requires forall i, j :: 0 <= i < j < |items| && items[i].countryCode == c && items[j].countryCode == c ==>
               !(items[i].mainCountryForCode && items[j].mainCountryForCode)
    ensures c in PerCodeOf(items) <==> FetchMainCountryMetadataForCode(items, c).Some?
    ensures c in PerCodeOf(items) ==> PerCodeOf(items)[c] == FetchMainCountryMetadataForCode(items, c).value
  {
    PerCodeSpec(items, c);
    var r := FetchMainCountryMetadataForCode(items, c);
    if r.Some? && r.value.mainCountryForCode {
      var l := LastMainWithCode(items, c);
      var j :| 0 <= j < |items| && items[j] == r.value;
      assert l.Some?;
    }
  }

  /** `fetchMetadataForCountry`: the first territory whose code ID is the upper-cased region. */
  function FetchMetadataForCountry(items: seq<Territory>, country: string): (r: Option<Territory>)
    ensures r.None? <==> forall k :: 0 <= k < |items| ==> items[k].codeID != PhoneRegex.UpperCase(country)
    ensures r.Some? ==> r.value == items[FirstWithId(items, PhoneRegex.UpperCase(country)).value]
  {
    match FirstWithId(items, PhoneRegex.UpperCase(country))
    case Some(k) => Some(items[k])
    case None => None
  }

  /** The position of the first territory with code ID `id`. */
  function FirstWithId(items: seq<Territory>, id: string): (i: Option<nat>)
    ensures i.Some? ==> i.value < |items| && items[i.value].codeID == id
    ensures i.Some? ==> forall j :: 0 <= j < i.value ==> items[j].codeID != id
    ensures i.None? ==> forall j :: 0 <= j < |items| ==> items[j].codeID != id
  {
    if items == [] then None
    else if items[0].codeID == id then Some(0)
    else match FirstWithId(items[1..], id)
         case Some(j) => Some(j + 1)
         case None => None
  }

  /**
   * The shared `Metadata` object: the territories in file order and the two lookup tables
   * `init` fills from them.
   */
  class Metadata {
    var items: seq<Territory>
    var metadataPerCode: map<nat, Territory>
    var metadataPerCountry: map<string, Territory>

    /** `init`: the territories (what `populateItems` read) are indexed one by one. */
    constructor (territories: seq<Territory>)
      ensures items == territories
      ensures metadataPerCode == PerCodeOf(territories)
      ensures metadataPerCountry == PerCountryOf(territories)
    {
      items := territories;
      metadataPerCode := map[];
      metadataPerCountry := map[];
      new;
      for i := 0 to |items|
        invariant items == territories
        invariant metadataPerCode == PerCodeOf(items[..i])
        invariant metadataPerCountry == PerCountryOf(items[..i])
      {
        var item := items[i];
        assert items[..i + 1][..i] == items[..i];
        if item.countryCode !in metadataPerCode || item.mainCountryForCode {
          metadataPerCode := metadataPerCode[item.countryCode := item];
        }
        metadataPerCountry := metadataPerCountry[item.codeID := item];
      }
      assert items[..|items|] == items;
    }
  }
}
