/**
 * The `PhoneNumberKit` facade: the region lists and code lookups over the metadata, the
 * region of a parsed number, and its type and validity.
 */
module PhoneKit {
  import opened Wrappers
  import opened PhoneConstants
  import opened PhoneRegex
  import opened PhoneMetadata
  import Decimal
  import PhoneParser
  import NumberFormatter

  /** The code IDs of `items`, in order. */
  function CodeIds(items: seq<Territory>): (r: seq<string>)
    ensures |r| == |items|
    ensures forall k :: 0 <= k < |items| ==> r[k] == items[k].codeID
  {
    if items == [] then [] else [items[0].codeID] + CodeIds(items[1..])
  }

  /** `allCountries`: every code ID of the metadata, in metadata order. */
  function AllCountries(items: seq<Territory>): (r: seq<string>)
    ensures |r| == |items| && forall k :: 0 <= k < |items| ==> r[k] == items[k].codeID
  {
    CodeIds(items)
  }

  /** `countriesForCode`: the code IDs of the territories with the code; never nil. */
  function CountriesForCode(items: seq<Territory>, code: nat): (r: Option<seq<string>>)
    ensures r.Some?
    ensures forall id :: id in r.value <==> exists k :: 0 <= k < |items| && items[k].countryCode == code && items[k].codeID == id
  {
    var territories := FetchCountriesForCode(items, code).value;
    var ids := CodeIds(territories);
    assert forall id :: id in ids ==> exists j :: 0 <= j < |territories| && territories[j].codeID == id;
    assert forall k :: 0 <= k < |items| && items[k].countryCode == code ==> items[k] in territories;
    Some(ids)
  }

  /** `mainCountryForCode`: the code ID of the territory `fetchMainCountryMetadataForCode` picks. */
  function MainCountryForCode(items: seq<Territory>, code: nat): (r: Option<string>)
    ensures r.None? <==> forall k :: 0 <= k < |items| ==> items[k].countryCode != code
    ensures r.Some? ==> exists k :: 0 <= k < |items| && items[k].countryCode == code && items[k].codeID == r.value
    ensures FirstMainWithCode(items, code).Some? ==> r == Some(items[FirstMainWithCode(items, code).value].codeID)
    ensures FirstMainWithCode(items, code).None? && FirstWithCode(items, code).Some? ==> r == Some(items[FirstWithCode(items, code).value].codeID)
  {
    match FetchMainCountryMetadataForCode(items, code)
    case Some(t) => Some(t.codeID)
    case None => None
  }

  /** `codeForCountry`: the country code of the first territory whose code ID is the upper-cased region. */
  function CodeForCountry(items: seq<Territory>, country: string): (r: Option<nat>)
    ensures r.None? <==> forall k :: 0 <= k < |items| ==> items[k].codeID != UpperCase(country)
    ensures r.Some? ==> exists k :: 0 <= k < |items| && items[k].codeID == UpperCase(country) && items[k].countryCode == r.value
  {
    match FetchMetadataForCountry(items, country)
    case Some(t) => Some(t.countryCode)
    case None => None
  }

  /** The decimal national number, `String(number.nationalNumber)`. */
  function NationalText(p: NumberFormatter.PhoneNumber): string {
    Decimal.NatToString(p.nationalNumber)
  }

  /**
   * A region claims the number when its leading digits match at the start, or when the
   * number with its leading zero, or the number itself, has a known type there.
   */
  predicate Claims(e: Engine, p: NumberFormatter.PhoneNumber, region: Territory) {
    || (region.leadingDigits.Some? && MatchesAtStart(e, region.leadingDigits.value, NationalText(p)))
    || (p.leadingZero && PhoneParser.CheckNumberType(e, "0" + NationalText(p), region) != Unknown)
    || PhoneParser.CheckNumberType(e, NationalText(p), region) != Unknown
  }

  /** The position of the first region from `from` on that claims the number. */
  function FirstClaiming(e: Engine, p: NumberFormatter.PhoneNumber, regions: seq<Territory>, from: nat): (r: Option<nat>)
    requires from <= |regions|
    ensures r.Some? ==> from <= r.value < |regions| && Claims(e, p, regions[r.value])
    ensures r.Some? ==> forall j :: from <= j < r.value ==> !Claims(e, p, regions[j])
    ensures r.None? ==> forall j :: from <= j < |regions| ==> !Claims(e, p, regions[j])
    decreases |regions| - from
  {
    if from == |regions| then None
    else if Claims(e, p, regions[from]) then Some(from)
    else FirstClaiming(e, p, regions, from + 1)
  }

  /** `getRegionCodeForNumber(_:fromRegionList:)`: the regions are tried in order. */
  method GetRegionCodeForNumber(e: Engine, p: NumberFormatter.PhoneNumber, regions: seq<Territory>) returns (r: Option<string>)
    ensures r == match FirstClaiming(e, p, regions, 0) case Some(k) => Some(regions[k].codeID) case None => None
  {
    var nationalNumber := Decimal.NatToString(p.nationalNumber);
    var i := 0;
    while i < |regions|
      invariant 0 <= i <= |regions|
      invariant FirstClaiming(e, p, regions, 0) == FirstClaiming(e, p, regions, i)
    {
      var region := regions[i];
      if region.leadingDigits.Some? {
        if MatchesAtStart(e, region.leadingDigits.value, nationalNumber) {
          return Some(region.codeID);
        }
      }
      if p.leadingZero && PhoneParser.CheckNumberType(e, "0" + nationalNumber, region) != Unknown {
        return Some(region.codeID);
      }
      if PhoneParser.CheckNumberType(e, nationalNumber, region) != Unknown {
        return Some(region.codeID);
      }
      i := i + 1;
    }
    return None;
  }

  /**
   * The region `regionCodeForNumber` answers: the only territory with the number's code, or
   * else the first territory with the code that claims the number.
   */
  function RegionCodeOf(e: Engine, p: NumberFormatter.PhoneNumber, items: seq<Territory>): Option<string> {
    var regions := WithCode(items, p.countryCode);
    if |regions| == 1 then Some(regions[0].codeID)
    else
      match FirstClaiming(e, p, regions, 0)
      case Some(k) => Some(regions[k].codeID)
      case None => None
  }

  /**
   * The region answered is always that of a territory with the number's country code: the
   * only one when there is just one, and otherwise one that claims the number, with no
   * territory of that code before it claiming it.
   */
  lemma RegionCodeSpec(e: Engine, p: NumberFormatter.PhoneNumber, items: seq<Territory>)
    ensures var r := RegionCodeOf(e, p, items);
            r.Some? ==> exists t :: t in items && t.countryCode == p.countryCode && t.codeID == r.value
    ensures var regions := WithCode(items, p.countryCode);
            |regions| == 1 ==> RegionCodeOf(e, p, items) == Some(items[FirstWithCode(items, p.countryCode).value].codeID)
    ensures var regions := WithCode(items, p.countryCode);
            var r := RegionCodeOf(e, p, items);
            |regions| != 1 && r.Some? ==>
              exists k :: 0 <= k < |regions| && Claims(e, p, regions[k]) && regions[k].codeID == r.value
                          && forall j :: 0 <= j < k ==> !Claims(e, p, regions[j])
    ensures var regions := WithCode(items, p.countryCode);
            |regions| != 1 ==> (RegionCodeOf(e, p, items).None? <==> forall k :: 0 <= k < |regions| ==> !Claims(e, p, regions[k]))
  {
    var regions := WithCode(items, p.countryCode);
    if |regions| == 1 {
      assert regions[0] in regions;
    } else {
      var f := FirstClaiming(e, p, regions, 0);
      if f.Some? {
        assert regions[f.value] in regions;
      }
    }
  }

  /** `regionCodeForNumber`. */
  method RegionCodeForNumber(e: Engine, p: NumberFormatter.PhoneNumber, items: seq<Territory>) returns (r: Option<string>)
    ensures r == RegionCodeOf(e, p, items)
  {
    var regions := WithCode(items, p.countryCode);
    if |regions| == 1 {
      return Some(regions[0].codeID);
    }
    r := GetRegionCodeForNumber(e, p, regions);
  }

  /**
   * The type `checkNumberType(_:)` gives a number: Unknown without a region or its metadata;
   * otherwise the type of the number with its leading zero when that is known, else the type
   * of the number itself.
   */
  function NumberTypeOf(e: Engine, p: NumberFormatter.PhoneNumber, items: seq<Territory>): PhoneNumberType {
    match RegionCodeOf(e, p, items)
    case None => Unknown
    case Some(region) =>
      match FetchMetadataForCountry(items, region)
      case None => Unknown
      case Some(metadata) =>
        var withZero := if p.leadingZero then PhoneParser.CheckNumberType(e, "0" + NationalText(p), metadata) else Unknown;
        if withZero != Unknown then withZero else PhoneParser.CheckNumberType(e, NationalText(p), metadata)
  }

  /**
   * A known type comes from a territory of the number's region whose general description
   * matches the number, with its leading zero or without it, and the leading-zero form is
   * tried first.
   */
  lemma NumberTypeSpec(e: Engine, p: NumberFormatter.PhoneNumber, items: seq<Territory>)
    ensures var kind := NumberTypeOf(e, p, items);
            kind != Unknown ==>
              RegionCodeOf(e, p, items).Some? &&
              exists t :: t in items && t.codeID == UpperCase(RegionCodeOf(e, p, items).value)
                          && (PhoneParser.GeneralMatches(e, NationalText(p), t) || (p.leadingZero && PhoneParser.GeneralMatches(e, "0" + NationalText(p), t)))
    ensures var kind := NumberTypeOf(e, p, items);
            p.leadingZero && RegionCodeOf(e, p, items).Some? && FetchMetadataForCountry(items, RegionCodeOf(e, p, items).value).Some? ==>
              var metadata := FetchMetadataForCountry(items, RegionCodeOf(e, p, items).value).value;
              PhoneParser.CheckNumberType(e, "0" + NationalText(p), metadata) != Unknown ==>
                kind == PhoneParser.CheckNumberType(e, "0" + NationalText(p), metadata)
  {
    var r := RegionCodeOf(e, p, items);
    if r.Some? {
      var m := FetchMetadataForCountry(items, r.value);
      if m.Some? {
        assert m.value in items;
      }
    }
  }

  /** `checkNumberType(_:)` on a parsed number. */
  method CheckNumberType(e: Engine, p: NumberFormatter.PhoneNumber, items: seq<Territory>) returns (kind: PhoneNumberType)
    ensures kind == NumberTypeOf(e, p, items)
  {
    var region := RegionCodeForNumber(e, p, items);
    if region.None? {
      return Unknown;
    }
    var metadata := FetchMetadataForCountry(items, region.value);
    if metadata.None? {
      return Unknown;
    }
    if p.leadingZero {
      kind := PhoneParser.CheckNumberType(e, "0" + Decimal.NatToString(p.nationalNumber), metadata.value);
      if kind != Unknown {
        return kind;
      }
    }
    var nationalNumber := Decimal.NatToString(p.nationalNumber);
    kind := PhoneParser.CheckNumberType(e, nationalNumber, metadata.value);
  }

  /** `isValidNumber`: the number's type is known. */
  method IsValidNumber(e: Engine, p: NumberFormatter.PhoneNumber, items: seq<Territory>) returns (b: bool)
    ensures b <==> NumberTypeOf(e, p, items) != Unknown
  {
    var kind := CheckNumberType(e, p, items);
    b := kind != Unknown;
  }
}
