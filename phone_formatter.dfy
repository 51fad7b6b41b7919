/**
 * `PhoneFormatter`, the formatter of Eureka's phone row: the object value of a text is its
 * digits, and a string of digits is laid out as `1 (ddd) ddd-rest`.
 */
module PhoneFormatting {
  import opened Wrappers

  predicate IsDigit(c: char) {
    '0' <= c <= '9'
  }

  /** The decimal digits of `s`, in order. */
  function Digits(s: string): (r: string)
    ensures |r| <= |s|
    ensures forall k :: 0 <= k < |r| ==> IsDigit(r[k])
  {
    if s == [] then [] else Digits(s[..|s| - 1]) + (if IsDigit(s[|s| - 1]) then [s[|s| - 1]] else [])
  }

  /** Taking the digits of digits changes nothing, and the digits of a digit string are the string. */
  lemma {:induction false} DigitsOfDigits(s: string)
    requires forall k :: 0 <= k < |s| ==> IsDigit(s[k])
    ensures Digits(s) == s
  {
    if s != [] {
      DigitsOfDigits(s[..|s| - 1]);
      assert s == s[..|s| - 1] + [s[|s| - 1]];
    }
  }

  /** The digits of a concatenation. */
  lemma {:induction false} DigitsAppend(a: string, b: string)
    ensures Digits(a + b) == Digits(a) + Digits(b)
  {
    if b != [] {
      assert (a + b)[..|a + b| - 1] == a + b[..|b| - 1];
      DigitsAppend(a, b[..|b| - 1]);
    } else {
      assert a + b == a;
    }
  }

  /** `Digits` is idempotent. */
  lemma DigitsIdempotent(s: string)
    ensures Digits(Digits(s)) == Digits(s)
  {
    DigitsOfDigits(Digits(s));
  }

  /**
   * `getObjectValue(_:forString:errorDescription:)`: without an out-pointer it fails;
   * otherwise the object is the string with every non-digit removed, and it succeeds.
   */
  function GetObjectValue(hasPointer: bool, s: string): (r: (bool, Option<string>))
    ensures r.0 <==> hasPointer
    ensures r.0 ==> r.1 == Some(Digits(s))
    ensures !r.0 ==> r.1 == None
  {
    if !hasPointer then (false, None) else (true, Some(Digits(s)))
  }

  /**
   * The layout of `getNewFormattedString`: a leading "1" becomes "1 ", then the next three
   * characters go in "(...) " if more than two are left, the next three before a "-" if
   * more than two are still left, and the rest follows as it is.
   */
  function Layout(s: string): (r: string)
  {
    if |s| > 0 && s[0] == '1' then "1 " + AreaLayout(s[1..]) else AreaLayout(s)
  }

  /** The layout after the leading "1": an area code in "(...) " when more than two characters are left. */
  function AreaLayout(t: string): (r: string)
  {
    if |t| > 2 then "(" + t[..3] + ") " + PrefixLayout(t[3..]) else PrefixLayout(t)
  }

  /** The layout after the area code: three characters and a "-" when more than two are left. */
  function PrefixLayout(u: string): (r: string)
  {
    if |u| > 2 then u[..3] + "-" + u[3..] else u
  }

  /**
   * `getNewFormattedString`: the output is built up piece by piece while `index` walks
   * through the input.
   */
  method GetNewFormattedString(oldString: string) returns (formatted: string)
    ensures formatted == Layout(oldString)
  {
    var length := |oldString|;
    formatted := "";
    var index := 0;
    if length > 0 && oldString[0] == '1' {
      formatted := formatted + "1 ";
      index := index + 1;
    }
    assert formatted + AreaLayout(oldString[index..]) == Layout(oldString);
    if length - index > 2 {
      AreaStep(formatted, oldString, index);
      formatted := formatted + "(" + oldString[index..index + 3] + ") ";
      index := index + 3;
    }
    assert formatted + PrefixLayout(oldString[index..]) == Layout(oldString);
    if length - index > 2 {
      PrefixStep(formatted, oldString, index);
      formatted := formatted + oldString[index..index + 3] + "-";
      index := index + 3;
    }
    formatted := formatted + oldString[index..];
  }

  /** Writing the area code at `index` of `s` after `f`. */
  lemma AreaStep(f: string, s: string, index: nat)
    requires index + 2 < |s|
    ensures f + AreaLayout(s[index..]) == (f + "(" + s[index..index + 3] + ") ") + PrefixLayout(s[index + 3..])
  {
    assert s[index..][..3] == s[index..index + 3];
    assert s[index..][3..] == s[index + 3..];
  }

  /** Writing the prefix at `index` of `s` after `f`. */
  lemma PrefixStep(f: string, s: string, index: nat)
    requires index + 2 < |s|
    ensures f + PrefixLayout(s[index..]) == (f + s[index..index + 3] + "-") + s[index + 3..]
  {
    assert s[index..][..3] == s[index..index + 3];
    assert s[index..][3..] == s[index + 3..];
  }

  /** A string without digits has no digits. */
  lemma {:induction false} NoDigits(t: string)
    requires forall k :: 0 <= k < |t| ==> !IsDigit(t[k])
    ensures Digits(t) == []
  {
    if t != [] {
      NoDigits(t[..|t| - 1]);
    }
  }

  /** Digits between two runs of separators. */
  lemma DigitsWrapped(a: string, d: string, b: string)
    requires forall k :: 0 <= k < |a| ==> !IsDigit(a[k])
    requires forall k :: 0 <= k < |d| ==> IsDigit(d[k])
    requires forall k :: 0 <= k < |b| ==> !IsDigit(b[k])
    ensures Digits(a + d + b) == d
  {
    DigitsAppend(a + d, b);
    DigitsAppend(a, d);
    NoDigits(a);
    NoDigits(b);
    DigitsOfDigits(d);
  }

  /** The digits of the layout after the area code are the input's digits. */
  lemma PrefixRoundTrip(u: string)
    requires forall k :: 0 <= k < |u| ==> IsDigit(u[k])
    ensures Digits(PrefixLayout(u)) == u
  {
    if |u| > 2 {
      DigitsAppend(u[..3] + "-", u[3..]);
      DigitsAppend(u[..3], "-");
      DigitsOfDigits(u[..3]);
      DigitsOfDigits(u[3..]);
      assert u[..3] + u[3..] == u;
    } else {
      DigitsOfDigits(u);
    }
  }

  /** The digits of the layout after the leading "1" are the input's digits. */
  lemma AreaRoundTrip(t: string)
    requires forall k :: 0 <= k < |t| ==> IsDigit(t[k])
    ensures Digits(AreaLayout(t)) == t
  {
    PrefixRoundTrip(if |t| > 2 then t[3..] else t);
    if |t| > 2 {
      DigitsAppend("(" + t[..3] + ") ", PrefixLayout(t[3..]));
      DigitsWrapped("(", t[..3], ") ");
      assert t[..3] + t[3..] == t;
    }
  }

  /** For digit input the layout only inserts separators: its digits are the input. */
  lemma LayoutRoundTrip(s: string)
    requires forall k :: 0 <= k < |s| ==> IsDigit(s[k])
    ensures Digits(Layout(s)) == s
  {
    if |s| > 0 && s[0] == '1' {
      AreaRoundTrip(s[1..]);
      DigitsAppend("1 ", AreaLayout(s[1..]));
      DigitsWrapped("", "1", " ");
      assert "" + "1" + " " == "1 ";
      assert [s[0]] + s[1..] == s;
    } else {
      AreaRoundTrip(s);
    }
  }

  /** The layout adds "1 " minus the "1", "(" and ") ", and "-", where each applies. */
  lemma LayoutLength(s: string)
    ensures var lead := |s| > 0 && s[0] == '1';
            var rest := if lead then |s| - 1 else |s|;
            |Layout(s)| == |s| + (if lead then 1 else 0) + (if rest > 2 then 3 else 0) + (if rest > 5 then 1 else 0)
  {
  }

  /**
   * `stringForObjectValue`: a string object is laid out, any other object has no string.
   * The object is given as an optional string: `None` for an object that is not a string.
   */
  function StringForObjectValue(obj: Option<string>): (r: Option<string>)
    ensures r.Some? <==> obj.Some?
    ensures obj.Some? ==> r.value == Layout(obj.value)
  {
    if obj.Some? then Some(Layout(obj.value)) else None
  }

  /**
   * The offset `getNewPosition` moves the caret by: the new length minus the old length,
   * a nil text counting as empty.
   */
  function PositionOffset(oldValue: Option<string>, newValue: Option<string>): (d: int)
    ensures d == (if newValue.Some? then |newValue.value| else 0) - (if oldValue.Some? then |oldValue.value| else 0)
  {
    |newValue.GetOr("")| - |oldValue.GetOr("")|
  }

  /**
   * `getNewPosition`: the text input's position at that offset (`positionFromPosition`,
   * given as `move`), or the old position when the input has none there.
   */
  function NewPosition(position: int, oldValue: Option<string>, newValue: Option<string>,
                       move: (int, int) -> Option<int>): (p: int)
    ensures move(position, PositionOffset(oldValue, newValue)).Some? ==> p == move(position, PositionOffset(oldValue, newValue)).value
    ensures move(position, PositionOffset(oldValue, newValue)).None? ==> p == position
  {
    move(position, PositionOffset(oldValue, newValue)).GetOr(position)
  }
}
