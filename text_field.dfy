/**
 * PhoneNumberKit's `PhoneNumberTextField`: a text field that reformats its text as the user
 * types, and keeps the cursor next to the same digit by remembering which character followed
 * it and how often that character occurs from there to the end.
 */
module PhoneTextField {
  import opened Wrappers
  import PhoneRegex
  import PhoneMetadata
  import PartialFormatting

  /** A decimal digit. */
  predicate IsDecimalDigit(c: char) {
    '0' <= c <= '9'
  }

  /** `nonNumericSet`: everything but the decimal digits and the two plus signs. */
  predicate IsNonNumeric(c: char) {
    !IsDecimalDigit(c) && c != '+' && c != '\U{FF0B}'
  }

  /** How often `c` occurs in `s`. */
  function Occurrences(s: string, c: char): (n: nat)
    ensures n <= |s|
  {
    if s == [] then 0 else Occurrences(s[..|s| - 1], c) + (if s[|s| - 1] == c then 1 else 0)
  }

  /** The occurrences in a concatenation add up. */
  lemma {:induction false} OccurrencesAppend(a: string, b: string, c: char)
    ensures Occurrences(a + b, c) == Occurrences(a, c) + Occurrences(b, c)
    decreases |b|
  {
    if b == [] {
      assert a + b == a;
    } else {
      assert (a + b)[..|a + b| - 1] == a + b[..|b| - 1];
      OccurrencesAppend(a, b[..|b| - 1], c);
    }
  }

  /** Counting from position `i` on is the character at `i` and the count after it. */
  lemma OccurrencesFrom(s: string, i: nat, c: char)
    requires i < |s|
    ensures Occurrences(s[i..], c) == (if s[i] == c then 1 else 0) + Occurrences(s[i + 1..], c)
  {
    assert s[i..] == [s[i]] + s[i + 1..];
    OccurrencesAppend([s[i]], s[i + 1..], c);
    assert [s[i]][..0] == [];
  }

  /** `CursorPosition`: the character after the cursor and its count from there to the end. */
  datatype CursorPosition = CursorPosition(numberAfterCursor: char, repetitionCountFromEnd: nat)

  /** The first position from `from` on that holds a digit or a plus sign. */
  function FirstNumericFrom(text: string, from: nat): (r: Option<nat>)
    requires from <= |text|
    ensures r.Some? ==> from <= r.value < |text| && !IsNonNumeric(text[r.value])
    ensures r.Some? ==> forall k :: from <= k < r.value ==> IsNonNumeric(text[k])
    ensures r.None? ==> forall k :: from <= k < |text| ==> IsNonNumeric(text[k])
    decreases |text| - from
  {
    if from == |text| then None
    else if !IsNonNumeric(text[from]) then Some(from)
    else FirstNumericFrom(text, from + 1)
  }

  /**
   * What `extractCursorPosition` answers: nil without text or selection, and when no digit
   * or plus sign lies at or after the cursor; otherwise the first such character and how
   * often it occurs from its position to the end, which is at least once.
   */
  function CursorPositionOf(text: Option<string>, cursor: Option<nat>): (r: Option<CursorPosition>)
    requires text.Some? && cursor.Some? ==> cursor.value <= |text.value|
    ensures text.None? || cursor.None? ==> r.None?
    ensures text.Some? && cursor.Some? ==>
              (r.None? <==> forall k :: cursor.value <= k < |text.value| ==> IsNonNumeric(text.value[k]))
    ensures r.Some? ==> r.value.repetitionCountFromEnd >= 1 && !IsNonNumeric(r.value.numberAfterCursor)
    ensures r.Some? ==> exists i :: cursor.value <= i < |text.value| && text.value[i] == r.value.numberAfterCursor
                                    && (forall k :: cursor.value <= k < i ==> IsNonNumeric(text.value[k]))
                                    && r.value.repetitionCountFromEnd == Occurrences(text.value[i..], text.value[i])
  {
    if text.None? || cursor.None? then None
    else
      match FirstNumericFrom(text.value, cursor.value)
      case None => None
      case Some(i) =>
        OccurrencesFrom(text.value, i, text.value[i]);
        Some(CursorPosition(text.value[i], Occurrences(text.value[i..], text.value[i])))
  }

  /** `extractCursorPosition`, with its two loops: find the character, then count it. */
  method ExtractCursorPosition(text: Option<string>, cursor: Option<nat>) returns (r: Option<CursorPosition>)
    requires text.Some? && cursor.Some? ==> cursor.value <= |text.value|
    ensures r == CursorPositionOf(text, cursor)
  {
    var repetitionCountFromEnd := 0;
    if text.None? || cursor.None? {
      return None;
    }
    var textAsString := text.value;
    var cursorEnd := cursor.value;
    for i := cursorEnd to |textAsString|
      invariant FirstNumericFrom(textAsString, cursorEnd) == FirstNumericFrom(textAsString, i)
    {
      var candidateNumberAfterCursor := textAsString[i];
      if !IsNonNumeric(candidateNumberAfterCursor) {
        for j := i to |textAsString|
          invariant repetitionCountFromEnd == Occurrences(textAsString[i..j], candidateNumberAfterCursor)
        {
          assert textAsString[i..j + 1][..j - i] == textAsString[i..j];
          if textAsString[j] == candidateNumberAfterCursor {
            repetitionCountFromEnd := repetitionCountFromEnd + 1;
          }
        }
        assert textAsString[i..|textAsString|] == textAsString[i..];
        return Some(CursorPosition(candidateNumberAfterCursor, repetitionCountFromEnd));
      }
    }
    return None;
  }

  /**
   * The position below `upTo` of the `count`-th occurrence of `c` counted from the end: the
   * position where `c` stands and occurs `count` times from there to the end.
   */
  function NthFromEnd(text: string, c: char, count: nat, upTo: nat): (r: Option<nat>)
    requires upTo <= |text|
    ensures r.Some? ==> r.value < upTo && text[r.value] == c && Occurrences(text[r.value..], c) == count
    ensures r.None? ==> forall p :: 0 <= p < upTo && text[p] == c ==> Occurrences(text[p..], c) != count
    decreases upTo
  {
    if upTo == 0 then None
    else if text[upTo - 1] == c && Occurrences(text[upTo - 1..], c) == count then Some(upTo - 1)
    else NthFromEnd(text, c, count, upTo - 1)
  }

  /** There is such a position exactly when `c` occurs at least `count` times, for a positive count. */
  lemma {:induction false} NthFromEndExists(text: string, c: char, count: nat)
    requires count >= 1
    ensures (exists p :: 0 <= p < |text| && text[p] == c && Occurrences(text[p..], c) == count)
            <==> Occurrences(text, c) >= count
    decreases |text|
  {
    if exists p :: 0 <= p < |text| && text[p] == c && Occurrences(text[p..], c) == count {
      var p :| 0 <= p < |text| && text[p] == c && Occurrences(text[p..], c) == count;
      assert text == text[..p] + text[p..];
      OccurrencesAppend(text[..p], text[p..], c);
    }
    if Occurrences(text, c) >= count {
      assert text != [];
      OccurrencesFrom(text, 0, c);
      assert text[0..] == text;
      if !(text[0] == c && Occurrences(text, c) == count) {
        NthFromEndExists(text[1..], c, count);
        var q :| 0 <= q < |text[1..]| && text[1..][q] == c && Occurrences(text[1..][q..], c) == count;
        assert text[1..][q..] == text[q + 1..];
        assert text[q + 1] == c && Occurrences(text[q + 1..], c) == count;
      }
    }
  }

  /**
   * The selection `selectionRangeForNumberReplacement` answers in the new text: the position
   * of the remembered character's remembered occurrence counted from the end; nil without a
   * remembered character or when the text holds it fewer times.
   */
  function SelectionFor(formattedText: string, cursorPosition: Option<CursorPosition>): (r: Option<nat>)
    ensures r.Some? ==> r.value < |formattedText|
    ensures cursorPosition.None? ==> r.None?
    ensures cursorPosition.Some? && cursorPosition.value.repetitionCountFromEnd >= 1 ==>
              (r.None? <==> Occurrences(formattedText, cursorPosition.value.numberAfterCursor) < cursorPosition.value.repetitionCountFromEnd)
  {
    match cursorPosition
    case None => None
    case Some(cp) =>
      if cp.repetitionCountFromEnd == 0 then NthFromEnd(formattedText, cp.numberAfterCursor, 0, |formattedText|)
      else
        NthFromEndExists(formattedText, cp.numberAfterCursor, cp.repetitionCountFromEnd);
        NthFromEnd(formattedText, cp.numberAfterCursor, cp.repetitionCountFromEnd, |formattedText|)
  }

  /** The right-to-left scan of `selectionRangeForNumberReplacement`. */
  method SelectionRangeForNumberReplacement(formattedText: string, cursorPosition: Option<CursorPosition>) returns (r: Option<nat>)
    ensures r == SelectionFor(formattedText, cursorPosition)
  {
    var countFromEnd := 0;
    if cursorPosition.None? {
      return None;
    }
    var numberAfterCursor := cursorPosition.value.numberAfterCursor;
    var wanted := cursorPosition.value.repetitionCountFromEnd;
    var i := |formattedText|;
    while i > 0
      invariant 0 <= i <= |formattedText|
      invariant countFromEnd == Occurrences(formattedText[i..], numberAfterCursor)
      invariant NthFromEnd(formattedText, numberAfterCursor, wanted, |formattedText|) == NthFromEnd(formattedText, numberAfterCursor, wanted, i)
    {
      i := i - 1;
      OccurrencesFrom(formattedText, i, numberAfterCursor);
      if formattedText[i] == numberAfterCursor {
        countFromEnd := countFromEnd + 1;
        if countFromEnd == wanted {
          return Some(i);
        }
      }
    }
    return None;
  }

  /** The text with the characters of a range replaced by a string. */
  function Replaced(text: string, location: nat, length: nat, replacement: string): (r: string)
    requires location + length <= |text|
    ensures |r| == |text| - length + |replacement|
    ensures r[..location] == text[..location] && r[location..location + |replacement|] == replacement
    ensures r[location + |replacement|..] == text[location + length..]
  {
    text[..location] + replacement + text[location + length..]
  }

  /** Some character of `s` is neither a digit nor a plus sign. */
  predicate HasNonNumeric(s: string) {
    exists k :: 0 <= k < |s| && IsNonNumeric(s[k])
  }

  /** The keyboard the field asks for. */
  datatype KeyboardType = PhonePad | NumberPad

  /** The text field's state: its text, the cursor offset, and the partial formatter it drives. */
  class PhoneNumberTextField {
    var text: Option<string>
    /** The offset of the end of the selected range; nil when there is no selection. */
    var cursor: Option<nat>
    var defaultRegion: string
    var withPrefix: bool
    var keyboardType: KeyboardType
    const partialFormatter: PartialFormatting.PartialFormatter

    /** The cursor lies within the text. */
    predicate Valid()
      reads this
    {
      text.Some? && cursor.Some? ==> cursor.value <= |text.value|
    }

    /** `init(frame:)` and `setup()`: an empty field with a phone pad and the default region. */
    constructor (engine: PhoneRegex.Engine, items: seq<PhoneMetadata.Territory>, region: string)
      ensures Valid() && fresh(partialFormatter)
      ensures text == Some("") && cursor == Some(0)
      ensures defaultRegion == region && withPrefix && keyboardType == PhonePad
      ensures partialFormatter.defaultRegion == region && partialFormatter.withPrefix
      ensures partialFormatter.engine == engine && partialFormatter.items == items
    {
      text := Some("");
      cursor := Some(0);
      defaultRegion := region;
      withPrefix := true;
      keyboardType := PhonePad;
      partialFormatter := new PartialFormatting.PartialFormatter(engine, items, region, true);
    }

    /** `currentRegion`: that of the formatter. */
    function CurrentRegion(): (r: string)
      reads this, partialFormatter
      ensures partialFormatter.currentMetadata.Some? ==> r == partialFormatter.currentMetadata.value.codeID
      ensures partialFormatter.currentMetadata.None? ==> r == partialFormatter.defaultRegion
    {
      partialFormatter.CurrentRegion()
    }

    /** Setting `defaultRegion`: the formatter takes the region too. */
    method SetDefaultRegion(region: string)
      modifies this, partialFormatter
      ensures defaultRegion == region && partialFormatter.defaultRegion == region
      ensures partialFormatter.currentMetadata == PartialFormatting.DefaultMetadataFor(partialFormatter.items, region)
      ensures text == old(text) && cursor == old(cursor) && withPrefix == old(withPrefix) && keyboardType == old(keyboardType)
      ensures partialFormatter.withPrefix == old(partialFormatter.withPrefix)
    {
      defaultRegion := region;
      partialFormatter.SetDefaultRegion(region);
    }

    /** Setting `withPrefix`: the formatter follows, and a number pad replaces the phone pad without the prefix. */
    method SetWithPrefix(value: bool)
      modifies this, partialFormatter
      ensures withPrefix == value && partialFormatter.withPrefix == value
      ensures keyboardType == if value then PhonePad else NumberPad
      ensures text == old(text) && cursor == old(cursor) && defaultRegion == old(defaultRegion)
      ensures partialFormatter.defaultRegion == old(partialFormatter.defaultRegion)
      ensures partialFormatter.currentMetadata == old(partialFormatter.currentMetadata)
    {
      withPrefix := value;
      partialFormatter.withPrefix := value;
      if value == false {
        keyboardType := NumberPad;
      } else {
        keyboardType := PhonePad;
      }
    }

    /**
     * `textField(_:shouldChangeCharactersInRange:replacementString:)`: always false, because
     * the field sets its own text. Without text, or when the delegate refuses, nothing changes.
     * Otherwise the edited text is formatted; deleting one non-numeric character keeps the
     * edited text as it is, and the cursor goes to the remembered character in the new text.
     * `delegateAnswer` is the delegate's answer, nil without a delegate or that method.
     */
    method ShouldChangeCharacters(location: nat, length: nat, replacement: string, delegateAnswer: Option<bool>) returns (b: bool)
      requires Valid()
      requires text.Some? ==> location + length <= |text.value|
      modifies this, partialFormatter
      ensures Valid() && !b
      ensures old(text).None? || delegateAnswer == Some(false) ==>
                text == old(text) && cursor == old(cursor) && unchanged(partialFormatter)
      ensures old(text).Some? && delegateAnswer != Some(false) ==>
                var modified := Replaced(old(text).value, location, length, replacement);
                && text == Some(if length == 1 && replacement == [] && HasNonNumeric(old(text).value[location..location + length]) then modified
                                else PartialFormatting.PartialFormatOf(partialFormatter.engine, partialFormatter.items,
                                       partialFormatter.defaultMetadata, partialFormatter.withPrefix, modified))
                && (!PartialFormatting.IsValidRawNumber(partialFormatter.engine, modified) ==> text == Some(modified))
                && cursor == Some(match SelectionFor(text.value, CursorPositionOf(old(text), old(cursor)))
                                  case Some(p) => p
                                  case None => |text.value|)
      ensures defaultRegion == old(defaultRegion) && withPrefix == old(withPrefix) && keyboardType == old(keyboardType)
      ensures partialFormatter.defaultRegion == old(partialFormatter.defaultRegion)
      ensures partialFormatter.withPrefix == old(partialFormatter.withPrefix)
      ensures partialFormatter.defaultMetadata == old(partialFormatter.defaultMetadata)
    {
      if text.None? {
        return false;
      }
      if !delegateAnswer.GetOr(true) {
        return false;
      }
      var cursorPosition := ExtractCursorPosition(text, cursor);
      ApplyEdit(text.value, location, length, replacement, cursorPosition);
      return false;
    }

    /**
     * The edit of `shouldChangeCharactersInRange` on the text `textAsString`, with the
     * cursor position remembered before it as `cursorPosition`.
     */
    method ApplyEdit(textAsString: string, location: nat, length: nat, replacement: string,
                     cursorPosition: Option<CursorPosition>)
      requires location + length <= |textAsString|
      modifies this, partialFormatter
      ensures var modified := Replaced(textAsString, location, length, replacement);
                && Valid()
                && text == Some(if length == 1 && replacement == [] && HasNonNumeric(textAsString[location..location + length]) then modified
                                else PartialFormatting.PartialFormatOf(partialFormatter.engine, partialFormatter.items,
                                       partialFormatter.defaultMetadata, partialFormatter.withPrefix, modified))
                && (!PartialFormatting.IsValidRawNumber(partialFormatter.engine, modified) ==> text == Some(modified))
                && cursor == Some(match SelectionFor(text.value, cursorPosition) case Some(p) => p case None => |text.value|)
      ensures defaultRegion == old(defaultRegion) && withPrefix == old(withPrefix) && keyboardType == old(keyboardType)
      ensures partialFormatter.defaultRegion == old(partialFormatter.defaultRegion)
      ensures partialFormatter.withPrefix == old(partialFormatter.withPrefix)
      ensures partialFormatter.defaultMetadata == old(partialFormatter.defaultMetadata)
    {
      var changedRange := textAsString[location..location + length];
      var modifiedTextField := Replaced(textAsString, location, length, replacement);
      var formattedNationalNumber := partialFormatter.FormatPartial(modifiedTextField);
      var nonNumericRange := HasNonNumeric(changedRange);
      if length == 1 && replacement == [] && nonNumericRange {
        ShowEdit(modifiedTextField, cursorPosition);
      } else {
        ShowEdit(formattedNationalNumber, cursorPosition);
      }
    }

    /**
     * The end of `shouldChangeCharactersInRange`: the field shows `newText` with the cursor
     * restored before the same digit occurrence, or at the end when that digit is gone.
     */
    method ShowEdit(newText: string, cursorPosition: Option<CursorPosition>)
      modifies this`text, this`cursor
      ensures Valid() && text == Some(newText)
      ensures cursor == Some(match SelectionFor(newText, cursorPosition) case Some(p) => p case None => |newText|)
    {
      var selectedTextRange := SelectionRangeForNumberReplacement(newText, cursorPosition);
      text := Some(newText);
      // Setting the text moves the cursor to its end; a selection found moves it there.
      cursor := Some(|text.value|);
      if selectedTextRange.Some? {
        cursor := Some(selectedTextRange.value);
      }
    }
  }
}
