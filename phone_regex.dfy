/**
 * PhoneNumberKit's `RegularExpressions` helpers. The regular-expression engine itself
 * (`NSRegularExpression`) is outside the model and is given as an `Engine` value; the helpers
 * built on it, the compiled-pattern cache, digit normalisation and the blank-string test are
 * modelled here.
 */
module PhoneRegex {
  import opened Wrappers
  import opened PhoneConstants
  import PhoneFormatting

  /** A range in the searched string (`NSRange`). */
  datatype Range = Range(location: nat, length: nat)

  /**
   * One match (`NSTextCheckingResult`): the range of the whole match and those of its capture
   * groups, `None` for a group that took no part (`NSNotFound`).
   */
  datatype Match = Match(range: Range, groups: seq<Option<Range>>) {

    /** `numberOfRanges`: the whole match and each group. */
    function NumberOfRanges(): nat {
      |groups| + 1
    }

    /** `rangeAtIndex(k)`: the whole match for 0, group k otherwise, `None` past the last group. */
    function RangeAtIndex(k: nat): (r: Option<Range>)
      ensures k == 0 ==> r == Some(range)
      ensures 0 < k < NumberOfRanges() ==> r == groups[k - 1]
    {
      if k == 0 then Some(range) else if k <= |groups| then groups[k - 1] else None
    }
  }

  /**
   * The engine: `compiles(p)` tells whether `NSRegularExpression` (case-insensitive) accepts
   * the pattern `p`, `matches(p, s)` lists the matches of a compiled `p` in `s` in order,
   * `replaceFirst(p, s, t)` replaces the first match of `p` in `s` by the template `t`, and
   * `replaceAll(p, s, t)` replaces every match.
   */
  datatype Engine = Engine(compiles: string -> bool,
                           matches: (string, string) -> seq<Match>,
                           replaceFirst: (string, string, string) -> string,
                           replaceAll: (string, string, string) -> string)

  /** A compiled pattern. */
  datatype Regex = Regex(pattern: string)

  /** Compiling a pattern: `GeneralError` when the engine rejects it. */
  function Compile(e: Engine, pattern: string): (r: Result<Regex, PhoneNumberError>)
    ensures r.Success? <==> e.compiles(pattern)
    ensures r.Success? ==> r.value.pattern == pattern
    ensures r.Failure? ==> r.error == GeneralError
  {
    if e.compiles(pattern) then Success(Regex(pattern)) else Failure(GeneralError)
  }

  /**
   * The shared `RegularExpressions` object's cache of compiled patterns. Every cached entry is
   * the compilation of its key, so the cache never changes what `regexWithPattern` answers.
   */
  class RegexCache {
    const engine: Engine
    var regularExpressions: map<string, Regex>

    ghost predicate Valid()
      reads this
    {
      forall p :: p in regularExpressions ==> engine.compiles(p) && regularExpressions[p] == Regex(p)
    }

    /** A fresh object starts with an empty cache. */
    constructor (e: Engine)
      ensures engine == e && regularExpressions == map[] && Valid()
    {
      engine := e;
      regularExpressions := map[];
    }

    /**
     * `regexWithPattern`: a cached pattern is returned from the cache; otherwise it is compiled
     * and, when that succeeds, stored. The answer is always that of compiling the pattern, and
     * the cache only grows.
     */
    method RegexWithPattern(pattern: string) returns (r: Result<Regex, PhoneNumberError>)
      requires Valid()
      modifies this
      ensures Valid()
      ensures r == Compile(engine, pattern)
      ensures old(pattern in regularExpressions) ==> regularExpressions == old(regularExpressions)
      ensures !old(pattern in regularExpressions) ==>
                regularExpressions == if r.Success? then old(regularExpressions)[pattern := r.value] else old(regularExpressions)
      ensures forall p :: p in old(regularExpressions) ==> p in regularExpressions && regularExpressions[p] == old(regularExpressions)[p]
      ensures r.Success? ==> pattern in regularExpressions && regularExpressions[pattern] == r.value
    {
      if pattern in regularExpressions {
        return Success(regularExpressions[pattern]);
      }
      if engine.compiles(pattern) {
        var currentPattern := Regex(pattern);
        regularExpressions := regularExpressions[pattern := currentPattern];
        return Success(currentPattern);
      }
      return Failure(GeneralError);
    }
  }

  /** `regexMatches`: the matches of `pattern` in `s`, or `GeneralError` when it does not compile. */
  function RegexMatches(e: Engine, pattern: string, s: string): (r: Result<seq<Match>, PhoneNumberError>)
    ensures r.Success? <==> e.compiles(pattern)
    ensures r.Success? ==> r.value == e.matches(pattern, s)
    ensures r.Failure? ==> r.error == GeneralError
  {
    match Compile(e, pattern)
    case Success(regex) => Success(e.matches(regex.pattern, s))
    case Failure(err) => Failure(err)
  }

  /** The loop of `matchesAtStart`: whether some match starts at location 0. */
  function AnyAtStart(ms: seq<Match>): (b: bool)
    ensures b <==> exists k :: 0 <= k < |ms| && ms[k].range.location == 0
  {
    if ms == [] then false else ms[0].range.location == 0 || AnyAtStart(ms[1..])
  }

  /** `matchesAtStart`: some match begins the string; false when the pattern does not compile. */
  function MatchesAtStart(e: Engine, pattern: string, s: string): (b: bool)
    ensures b <==> e.compiles(pattern) && exists k :: 0 <= k < |e.matches(pattern, s)| && e.matches(pattern, s)[k].range.location == 0
  {
    match RegexMatches(e, pattern, s)
    case Success(ms) => AnyAtStart(ms)
    case Failure(_) => false
  }

  /** `stringPositionByRegex`: where the first match begins, and -1 without a match or on an error. */
  function StringPositionByRegex(e: Engine, pattern: string, s: string): (p: int)
    ensures p == -1 <==> !e.compiles(pattern) || e.matches(pattern, s) == []
    ensures p != -1 ==> p == e.matches(pattern, s)[0].range.location
    ensures p >= -1
  {
    match RegexMatches(e, pattern, s)
    case Success(ms) => if ms != [] then ms[0].range.location else -1
    case Failure(_) => -1
  }

  /** `matchesExist`: false for a nil pattern or one that does not compile, else whether there is a match. */
  function MatchesExist(e: Engine, pattern: Option<string>, s: string): (b: bool)
    ensures pattern.None? ==> !b
    ensures pattern.Some? ==> (b <==> e.compiles(pattern.value) && |e.matches(pattern.value, s)| > 0)
  {
    if pattern.None? then false
    else
      match RegexMatches(e, pattern.value, s)
      case Success(ms) => |ms| > 0
      case Failure(_) => false
  }

  /** The anchoring `matchesEntirely` adds around a pattern. */
  function Anchored(pattern: string): (a: string)
    ensures |a| == |pattern| + 4 && a[..2] == "^(" && a[2..|a| - 2] == pattern && a[|a| - 2..] == ")$"
  {
    "^(" + pattern + ")$"
  }

  /** `matchesEntirely`: false for a nil pattern, otherwise whether the pattern anchored as `^(p)$` matches. */
  function MatchesEntirely(e: Engine, pattern: Option<string>, s: string): (b: bool)
    ensures pattern.None? ==> !b
    ensures pattern.Some? ==> (b <==> e.compiles(Anchored(pattern.value)) && |e.matches(Anchored(pattern.value), s)| > 0)
  {
    if pattern.None? then false else MatchesExist(e, Some(Anchored(pattern.value)), s)
  }

  /** `testStringLengthAgainstPattern` answers exactly as `matchesEntirely`. */
  function TestStringLengthAgainstPattern(e: Engine, pattern: string, s: string): (b: bool)
    ensures b == MatchesEntirely(e, Some(pattern), s)
  {
    if MatchesEntirely(e, Some(pattern), s) then true else false
  }

  /** `substringWithNSRange`, for a range that the engine reports inside the string. */
  function Substring(s: string, r: Range): (t: string)
    ensures r.location + r.length <= |s| ==> t == s[r.location..r.location + r.length]
    ensures |t| <= r.length && |t| <= |s|
  {
    if r.location + r.length <= |s| then s[r.location..r.location + r.length]
    else if r.location <= |s| then s[r.location..]
    else []
  }

  /** The matched substrings, in order. */
  function Substrings(s: string, ms: seq<Match>): (ts: seq<string>)
    ensures |ts| == |ms|
    ensures forall k :: 0 <= k < |ms| ==> ts[k] == Substring(s, ms[k].range)
  {
    if ms == [] then [] else [Substring(s, ms[0].range)] + Substrings(s, ms[1..])
  }

  /** `matchedStringByRegex`: the text of each match, in order; none when the pattern does not compile. */
  function MatchedStringByRegex(e: Engine, pattern: string, s: string): (ts: seq<string>)
    ensures !e.compiles(pattern) ==> ts == []
    ensures e.compiles(pattern) ==> |ts| == |e.matches(pattern, s)|
    ensures e.compiles(pattern) ==> forall k :: 0 <= k < |ts| ==> ts[k] == Substring(s, e.matches(pattern, s)[k].range)
  {
    match RegexMatches(e, pattern, s)
    case Success(ms) => Substrings(s, ms)
    case Failure(_) => []
  }

  /**
   * `replaceStringByRegex(pattern:string:template:)`: the string when the pattern does not
   * compile or has no match, the first match replaced when there is exactly one, and every
   * match replaced when there are several. The two-argument form has the empty template.
   */
  function ReplaceStringByRegex(e: Engine, pattern: string, s: string, template: string): (t: string)
    ensures !e.compiles(pattern) || e.matches(pattern, s) == [] ==> t == s
    ensures e.compiles(pattern) && |e.matches(pattern, s)| == 1 ==> t == e.replaceFirst(pattern, s, template)
    ensures e.compiles(pattern) && |e.matches(pattern, s)| > 1 ==> t == e.replaceAll(pattern, s, template)
  {
    match RegexMatches(e, pattern, s)
    case Success(ms) =>
      if |ms| == 1 then e.replaceFirst(pattern, s, template)
      else if |ms| > 1 then e.replaceAll(pattern, s, template)
      else s
    case Failure(_) => s
  }

  /**
   * `replaceFirstStringByRegex`: the empty string when the pattern does not compile, the first
   * match replaced when there is one, and otherwise the string itself.
   */
  function ReplaceFirstStringByRegex(e: Engine, pattern: string, s: string, template: string): (t: string)
    ensures !e.compiles(pattern) ==> t == ""
    ensures e.compiles(pattern) && e.matches(pattern, s) != [] ==> t == e.replaceFirst(pattern, s, template)
    ensures e.compiles(pattern) && e.matches(pattern, s) == [] ==> t == s
  {
    match Compile(e, pattern)
    case Success(_) => if e.matches(pattern, s) != [] then e.replaceFirst(pattern, s, template) else s
    case Failure(_) => ""
  }

  // Digit normalisation.

  /** The upper-case form of a character; only ASCII letters change. */
  function UpperChar(c: char): (u: char)
    ensures PhoneFormatting.IsDigit(u) <==> PhoneFormatting.IsDigit(c)
    ensures PhoneFormatting.IsDigit(c) ==> u == c
  {
    if 'a' <= c <= 'z' then (c as int - 'a' as int + 'A' as int) as char else c
  }

  /** `String(oneChar).uppercaseString`. */
  function UpperCase(s: string): (u: string)
    ensures |u| == |s|
    ensures forall k :: 0 <= k < |s| ==> u[k] == UpperChar(s[k])
  {
    if s == [] then [] else [UpperChar(s[0])] + UpperCase(s[1..])
  }

  /** What one character contributes: the value its upper-case form maps to, or nothing. */
  function MappedChar(c: char, m: map<string, string>): string {
    var key := UpperCase([c]);
    if key in m then m[key] else []
  }

  /**
   * The result of `stringByReplacingOccurrences`: each character whose upper-case form is a key
   * replaced by its value, in order, and every other character dropped.
   */
  function ReplacedOccurrences(s: string, m: map<string, string>): string {
    if s == [] then [] else ReplacedOccurrences(s[..|s| - 1], m) + MappedChar(s[|s| - 1], m)
  }

  /** `stringByReplacingOccurrences`, appending to `targetString` character by character. */
  method StringByReplacingOccurrences(s: string, m: map<string, string>) returns (targetString: string)
    ensures targetString == ReplacedOccurrences(s, m)
  {
    targetString := "";
    for i := 0 to |s|
      invariant targetString == ReplacedOccurrences(s[..i], m)
    {
      var keyString := UpperCase([s[i]]);
      if keyString in m {
        targetString := targetString + m[keyString];
      }
      assert s[..i + 1][..i] == s[..i];
    }
    assert s[..|s|] == s;
  }

  /** Replacing in a concatenation replaces in each part. */
  lemma {:induction false} ReplacedAppend(a: string, b: string, m: map<string, string>)
    ensures ReplacedOccurrences(a + b, m) == ReplacedOccurrences(a, m) + ReplacedOccurrences(b, m)
  {
    if b == [] {
      assert a + b == a;
    } else {
      assert (a + b)[..|a + b| - 1] == a + b[..|b| - 1];
      ReplacedAppend(a, b[..|b| - 1], m);
    }
  }

  /** `allNormalizationMappings`: each ASCII digit maps to itself. */
  const AllNormalizationMappings: map<string, string> :=
    map["0" := "0", "1" := "1", "2" := "2", "3" := "3", "4" := "4",
        "5" := "5", "6" := "6", "7" := "7", "8" := "8", "9" := "9"]

  /** Under the digit map a character is kept exactly when it is an ASCII digit. */
  lemma DigitMapChar(c: char)
    ensures MappedChar(c, AllNormalizationMappings) == if PhoneFormatting.IsDigit(c) then [c] else []
  {
    var u := UpperChar(c);
    assert UpperCase([c]) == [u];
    if PhoneFormatting.IsDigit(c) {
      assert u == c;
      assert c in {'0', '1', '2', '3', '4', '5', '6', '7', '8', '9'};
    } else {
      assert !PhoneFormatting.IsDigit(u);
      assert [u] !in AllNormalizationMappings;
    }
  }

  /** Normalising with the digit map keeps exactly the ASCII digits, in order. */
  lemma {:induction false} NormalizeKeepsDigits(s: string)
    ensures ReplacedOccurrences(s, AllNormalizationMappings) == PhoneFormatting.Digits(s)
  {
    if s != [] {
      NormalizeKeepsDigits(s[..|s| - 1]);
      DigitMapChar(s[|s| - 1]);
    }
  }

  /** Normalising a normalised string changes nothing. */
  lemma NormalizeIdempotent(s: string)
    ensures ReplacedOccurrences(ReplacedOccurrences(s, AllNormalizationMappings), AllNormalizationMappings)
         == ReplacedOccurrences(s, AllNormalizationMappings)
  {
    NormalizeKeepsDigits(s);
    NormalizeKeepsDigits(PhoneFormatting.Digits(s));
    PhoneFormatting.DigitsIdempotent(s);
  }

  // The blank-string test.

  /** `spaceCharacterSet`: the no-break space and `whitespaceAndNewlineCharacterSet`. */
  predicate IsSpaceCharacter(c: char) {
    c == NonBreakingSpace || c == ' ' || '\t' <= c <= '\r' || c == '\U{0085}' || c == '\U{1680}'
    || '\U{2000}' <= c <= '\U{200A}' || c == '\U{2028}' || c == '\U{2029}' || c == '\U{202F}'
    || c == '\U{205F}' || c == '\U{3000}'
  }

  /** `s` without its leading space characters. */
  function TrimLeading(s: string): (t: string)
    ensures |t| <= |s| && t == s[|s| - |t|..]
    ensures t != [] ==> !IsSpaceCharacter(t[0])
    ensures forall k :: 0 <= k < |s| - |t| ==> IsSpaceCharacter(s[k])
  {
    if s != [] && IsSpaceCharacter(s[0]) then TrimLeading(s[1..]) else s
  }

  /** `s` without its trailing space characters. */
  function TrimTrailing(s: string): (t: string)
    ensures |t| <= |s| && t == s[..|t|]
    ensures t != [] ==> !IsSpaceCharacter(t[|t| - 1])
    ensures forall k :: |t| <= k < |s| ==> IsSpaceCharacter(s[k])
  {
    if s != [] && IsSpaceCharacter(s[|s| - 1]) then TrimTrailing(s[..|s| - 1]) else s
  }

  /** `stringByTrimmingCharactersInSet(spaceCharacterSet)`. */
  function Trim(s: string): string {
    TrimTrailing(TrimLeading(s))
  }

  /** Trimming leaves nothing exactly when every character is a space character. */
  lemma TrimEmpty(s: string)
    ensures Trim(s) == [] <==> forall k :: 0 <= k < |s| ==> IsSpaceCharacter(s[k])
  {
  }

  /** `hasValue`: false for nil and for a string of space characters only. */
  function HasValue(value: Option<string>): (b: bool)
    ensures b <==> value.Some? && exists k :: 0 <= k < |value.value| && !IsSpaceCharacter(value.value[k])
  {
    if value.Some? then
      TrimEmpty(value.value);
      |Trim(value.value)| != 0
    else false
  }
}
