/**
  The logic of capped-line-demo.js apart from the DOM: the positive-integer
  test, the hex colour manager's cleaning and testing of input text, the
  width arithmetic of `CappedLine.render` with the line's setters, and the
  accept/reject state machine of `ValidatedInput`.
*/
module CappedLineDemo {

  datatype Option<T> = None | Some(value: T)

  // ---------------------------------------------------------------------
  // isPosInt
  // ---------------------------------------------------------------------

  const TwoTo31: int := 0x8000_0000
  const TwoTo32: int := 0x1_0000_0000

  /** `x | 0`: the integer `x` wrapped into the signed 32-bit range */
  function ToInt32(x: int): (r: int)
    ensures -TwoTo31 <= r < TwoTo31
    ensures (x - r) % TwoTo32 == 0
    ensures -TwoTo31 <= x < TwoTo31 ==> r == x
  {
    (x + TwoTo31) % TwoTo32 - TwoTo31
  }

  /** `isPosInt(x)`: `x` survives the 32-bit truncation and is positive, that
      is, it lies in 1 .. 2^31 - 1 */
  function IsPosInt(x: int): (r: bool)
    ensures r <==> 1 <= x < TwoTo31
  {
    x == ToInt32(x) && x > 0
  }

  // ---------------------------------------------------------------------
  // HexColorInputManager.testValue
  // ---------------------------------------------------------------------

  /** A character of the class `[0-9A-Fa-f]` */
  predicate IsHexDigit(c: char) {
    ('0' <= c <= '9') || ('A' <= c <= 'F') || ('a' <= c <= 'f')
  }

  /** `s` matches `[0-9A-Fa-f]{k}` from its start to its end */
  predicate HexDigitsMatch(s: string, k: nat)
    ensures HexDigitsMatch(s, k) ==> |s| == k
    decreases k
  {
    if k == 0 then s == []
    else s != [] && IsHexDigit(s[0]) && HexDigitsMatch(s[1..], k - 1)
  }

  /** Every character of `s` is a hex digit */
  predicate AllHexDigits(s: string) {
    forall i | 0 <= i < |s| :: IsHexDigit(s[i])
  }

  /** The anchored match succeeds exactly on `k` hex digits */
  lemma {:induction false} HexDigitsMatchMeans(s: string, k: nat)
    ensures HexDigitsMatch(s, k) <==> |s| == k && AllHexDigits(s)
    decreases k
  {
    if k != 0 && s != [] {
      HexDigitsMatchMeans(s[1..], k - 1);
      if AllHexDigits(s) {
        assert AllHexDigits(s[1..]) by {
          forall i | 0 <= i < |s[1..]| ensures IsHexDigit(s[1..][i]) {
            assert s[1..][i] == s[i + 1];
          }
        }
      }
      if IsHexDigit(s[0]) && AllHexDigits(s[1..]) {
        forall i | 0 <= i < |s| ensures IsHexDigit(s[i]) {
          if i > 0 {
            assert s[i] == s[1..][i - 1];
          }
        }
      }
    }
  }

  /** `testValue(value)`: `/^([0-9A-Fa-f]{3}|[0-9A-Fa-f]{6})$/.test(value)` */
  predicate TestHexValue(s: string)
    ensures TestHexValue(s) ==> |s| == 3 || |s| == 6
  {
    HexDigitsMatch(s, 3) || HexDigitsMatch(s, 6)
  }

  /** A colour is accepted exactly when it is three or six hex digits */
  lemma TestHexValueMeans(s: string)
    ensures TestHexValue(s) <==> (|s| == 3 || |s| == 6) && AllHexDigits(s)
  {
    HexDigitsMatchMeans(s, 3);
    HexDigitsMatchMeans(s, 6);
  }

  // ---------------------------------------------------------------------
  // HexColorInputManager.cleanValue
  // ---------------------------------------------------------------------

  /** A character of `\s`: the ECMAScript white space and line terminators
      (tab, line feed, vertical tab, form feed, carriage return, space,
      U+00A0, U+1680, U+2000 to U+200A, U+2028, U+2029, U+202F, U+205F,
      U+3000 and U+FEFF) */
  predicate IsWhitespace(c: char) {
    || '\t' <= c <= '\r' || c == ' ' || c == '\U{00A0}' || c == '\U{1680}'
    || '\U{2000}' <= c <= '\U{200A}' || c == '\U{2028}' || c == '\U{2029}'
    || c == '\U{202F}' || c == '\U{205F}' || c == '\U{3000}' || c == '\U{FEFF}'
  }

  /** A character of the class `[\#\s]` */
  predicate IsJunk(c: char) {
    c == '#' || IsWhitespace(c)
  }

  /** No hex digit is junk: `#` and every white space character lie outside
      the hex digit ranges */
  lemma JunkIsNotHex(c: char)
    ensures IsJunk(c) ==> !IsHexDigit(c)
  {
  }

  /** No character of `s` is junk */
  predicate JunkFree(s: string) {
    forall i | 0 <= i < |s| :: !IsJunk(s[i])
  }

  /** `s` without its leading run of junk: the greedy `+` of the pattern */
  function DropJunk(s: string): (r: string)
    ensures |r| <= |s| && r == s[|s| - |r|..]
    ensures forall i | 0 <= i < |s| - |r| :: IsJunk(s[i])
    ensures r == [] || !IsJunk(r[0])
  {
    if s != [] && IsJunk(s[0]) then
      var r := DropJunk(s[1..]);
      assert forall i | 1 <= i < |s| :: s[i] == s[1..][i - 1];
      r
    else s
  }

  /** The leading run of junk ends exactly where the first non-junk
      character (or the end) of `s` is */
  lemma {:induction false} DropJunkStops(s: string, j: nat)
    requires j <= |s| && (forall k | 0 <= k < j :: IsJunk(s[k]))
    requires j < |s| ==> !IsJunk(s[j])
    ensures DropJunk(s) == s[j..]
    decreases j
  {
    if j > 0 {
      assert forall k | 0 <= k < j - 1 :: s[1..][k] == s[k + 1];
      DropJunkStops(s[1..], j - 1);
      assert s[1..][j - 1..] == s[j..];
    }
  }

  /** `cleanValue(value)`: `value.replace(/[\#\s]+/, '')`. Without the `g`
      flag only the leftmost match is replaced: the first run of junk, taken
      whole, is deleted and any later run is kept */
  function CleanHexValue(s: string): (r: string)
    ensures |r| <= |s|
    ensures JunkFree(s) ==> r == s
  {
    if s == [] then []
    else if IsJunk(s[0]) then DropJunk(s)
    else [s[0]] + CleanHexValue(s[1..])
  }

  /** `s[i..j]` is the leftmost maximal run of junk in `s`; when `s` is
      junk-free the run is empty at the end of `s` */
  predicate FirstRun(s: string, i: nat, j: nat) {
    && i <= j <= |s|
    && JunkFree(s[..i])
    && (forall k | i <= k < j :: IsJunk(s[k]))
    && (j < |s| ==> !IsJunk(s[j]))
    && (i == j ==> i == |s|)
  }

  /** A run that does not start at the head of `s` is also the first run of
      the tail of `s`, and the head is kept */
  lemma FirstRunTail(s: string, i: nat, j: nat)
    requires FirstRun(s, i, j) && i > 0
    ensures !IsJunk(s[0]) && FirstRun(s[1..], i - 1, j - 1)
  {
    assert s[..i][0] == s[0];
    assert s[1..][..i - 1] == s[..i][1..];
    forall k | i - 1 <= k < j - 1 ensures IsJunk(s[1..][k]) {
      assert s[1..][k] == s[k + 1];
    }
  }

  /** Cleaning splices out exactly the leftmost maximal run of junk */
  lemma {:induction false} CleanHexValueSplices(s: string, i: nat, j: nat)
    requires FirstRun(s, i, j)
    ensures CleanHexValue(s) == s[..i] + s[j..]
    decreases s
  {
    if s == [] {
    } else if i == 0 {
      DropJunkStops(s, j);
    } else {
      FirstRunTail(s, i, j);
      var t := s[1..];
      calc {
        CleanHexValue(s);
        [s[0]] + CleanHexValue(t);
        { CleanHexValueSplices(t, i - 1, j - 1); }
        [s[0]] + (t[..i - 1] + t[j - 1..]);
        { assert s[..i] == [s[0]] + t[..i - 1]; assert s[j..] == t[j - 1..]; }
        s[..i] + s[j..];
      }
    }
  }

  /** Every string has its leftmost maximal run of junk */
  lemma {:induction false} FirstRunExists(s: string)
    ensures exists i: nat, j: nat :: FirstRun(s, i, j)
    decreases s
  {
    if s == [] {
      assert FirstRun(s, 0, 0);
    } else if IsJunk(s[0]) {
      var m := |s| - |DropJunk(s)|;
      assert FirstRun(s, 0, m);
    } else {
      FirstRunExists(s[1..]);
      var i: nat, j: nat :| FirstRun(s[1..], i, j);
      assert FirstRun(s, i + 1, j + 1) by {
        assert s[..i + 1] == [s[0]] + s[1..][..i];
        forall k | i + 1 <= k < j + 1 ensures IsJunk(s[k]) {
          assert s[k] == s[1..][k - 1];
        }
        if j + 1 < |s| {
          assert s[j + 1] == s[1..][j];
        }
      }
    }
  }

  /** An accepted colour is already clean: the display an acceptance writes
      back cleans to the stored value again */
  lemma AcceptedHexIsClean(s: string)
    requires TestHexValue(s)
    ensures CleanHexValue(s) == s
  {
    TestHexValueMeans(s);
    forall i | 0 <= i < |s| ensures !IsJunk(s[i]) {
      JunkIsNotHex(s[i]);
    }
  }

  // ---------------------------------------------------------------------
  // CappedLine
  // ---------------------------------------------------------------------

  /** The cap and middle widths `render` computes: each cap is as wide as the
      line is high and the middle takes the rest; when the line is narrower
      than two caps, the middle is empty and the caps share the width */
  function CapWidths(width: int, height: int): (r: (int, int))
    ensures r.1 >= 0
    ensures width >= 2 * height ==> r.0 == height && 2 * r.0 + r.1 == width
    ensures width < 2 * height ==> r.1 == 0 && r.0 == (width + 1) / 2
  {
    var middle := width - 2 * height;
    if middle < 0 then (height - (-middle) / 2, 0) else (height, middle)
  }

  /** The style values `render` writes: the outer height, the width of both
      caps, the width of the middle, and the colour of all three pieces */
  datatype Layout = Layout(height: int, capWidth: int, middleWidth: int, color: string)

  /** The layout of a line of the given dimensions and colour */
  function LayoutOf(width: int, height: int, color: string): (l: Layout)
    ensures l.height == height && l.color == color
    ensures l.middleWidth >= 0
    ensures width >= 2 * height ==> 2 * l.capWidth + l.middleWidth == width
    ensures (l.capWidth, l.middleWidth) == CapWidths(width, height)
  {
    var (cap, middle) := CapWidths(width, height);
    Layout(height, cap, middle, color)
  }

  class CappedLine {
    var width: int
    var height: int
    var color: string
    /** Whether the outer element has a parent node */
    const attached: bool
    /** The styles last written by `render`, `None` before the first */
    var styles: Option<Layout>

    /** A line attached to the document always shows its current dimensions
        and colour; a detached one has never been drawn */
    ghost predicate Valid()
      reads this
    {
      styles == if attached then Some(LayoutOf(width, height, color)) else None
    }

    /** `new CappedLine(width, height, color, parent)`: rendered at once when
        a parent is given */
    constructor (width: int, height: int, color: string, attached: bool)
      ensures Valid()
      ensures this.width == width && this.height == height && this.color == color
      ensures this.attached == attached
    {
      this.width := width;
      this.height := height;
      this.color := color;
      this.attached := attached;
      styles := None;
      new;
      Render();
    }

    /** `render()`: nothing when detached, otherwise the styles of the
        current dimensions and colour */
    method Render()
      modifies this`styles
      ensures attached ==> styles == Some(LayoutOf(width, height, color))
      ensures !attached ==> styles == old(styles)
    {
      if !attached {
        return;
      }
      var capWidth := height;
      var middleWidth := width - 2 * capWidth;
      if middleWidth < 0 {
        capWidth := capWidth - (-middleWidth) / 2;
        middleWidth := 0;
      }
      styles := Some(Layout(height, capWidth, middleWidth, color));
    }

    /** `setColor(color)` */
    method SetColor(color: string)
      requires Valid()
      modifies this`color, this`styles
      ensures Valid()
      ensures this.color == color && width == old(width) && height == old(height)
    {
      this.color := color;
      Render();
    }

    /** `setHeight(height)` */
    method SetHeight(height: int)
      requires Valid()
      modifies this`height, this`styles
      ensures Valid()
      ensures this.height == height && width == old(width) && color == old(color)
    {
      this.height := height;
      Render();
    }

    /** `setWidth(width)` */
    method SetWidth(width: int)
      requires Valid()
      modifies this`width, this`styles
      ensures Valid()
      ensures this.width == width && height == old(height) && color == old(color)
    {
      this.width := width;
      Render();
    }
  }

  // ---------------------------------------------------------------------
  // ValidatedInput
  // ---------------------------------------------------------------------

  /** The last element of a non-empty sequence */
  function Last<T>(s: seq<T>): T
    requires s != []
  {
    s[|s| - 1]
  }

  /** An input field guarded by a manager: `clean` and `test` are the
      manager's `cleanValue` and `testValue`, `show` is the conversion of a
      value to the text of the field, and `handled` records, in order, the
      values passed to the manager's `handleSet` */
  class ValidatedInput<T(==)> {
    const clean: string -> T
    const test: T -> bool
    const show: T -> string
    /** The value the input was constructed with */
    ghost const initial: T
    /** `_value`: the last accepted value */
    var value: T
    /** `input.value`: the text shown in (and typed into) the field */
    var display: string
    var handled: seq<T>

    /** Every value handed to `handleSet` passed the manager's test, and the
        stored value is the last one handed over (the initial value before
        any) */
    ghost predicate Valid()
      reads this
    {
      && (forall i | 0 <= i < |handled| :: test(handled[i]))
      && value == if handled == [] then initial else Last(handled)
    }

    /** `new ValidatedInput(value, manager)` */
    constructor (initial: T, clean: string -> T, test: T -> bool, show: T -> string)
      ensures Valid()
      ensures this.initial == initial && this.clean == clean && this.test == test && this.show == show
      ensures value == initial && display == show(initial) && handled == []
    {
      this.clean := clean;
      this.test := test;
      this.show := show;
      this.initial := initial;
      value := initial;
      display := show(initial);
      handled := [];
    }

    /** `_handleInputChange()`: the cleaned text is taken when it is the
        stored value or passes the test, and refused otherwise */
    method HandleInputChange() returns (accepted: bool)
      requires Valid()
      modifies this`value, this`display, this`handled
      ensures Valid()
      ensures var v := clean(old(display));
        && (v == old(value) ==>
              accepted && value == old(value) && display == show(v) && handled == old(handled))
        && (v != old(value) && !test(v) ==>
              !accepted && value == old(value) && display == old(display) && handled == old(handled))
        && (v != old(value) && test(v) ==>
              accepted && value == v && display == show(v) && handled == old(handled) + [v])
    {
      var newValue := clean(display);
      if newValue == value {
        display := show(newValue);
        return true;
      }
      if !test(newValue) {
        return false;
      }
      value := newValue;
      handled := handled + [newValue];
      display := show(newValue);
      return true;
    }

    /** `_handleInputBlur()`: a refused text is replaced by the stored value,
        so on leaving the field it always shows the stored value */
    method HandleInputBlur()
      requires Valid()
      modifies this`value, this`display, this`handled
      ensures Valid()
      ensures var v := clean(old(display));
        && (v != old(value) && test(v) ==> value == v && handled == old(handled) + [v])
        && (v == old(value) || !test(v) ==> value == old(value) && handled == old(handled))
      ensures display == show(value)
    {
      var accepted := HandleInputChange();
      if !accepted {
        display := show(value);
      }
    }
  }

  /** `new HexColorInput(color, ...)`: a validated input over the hex colour
      manager, whose values are the cleaned texts themselves */
  method NewHexColorInput(color: string) returns (input: ValidatedInput<string>)
    ensures fresh(input) && input.Valid()
    ensures input.clean == CleanHexValue && input.test == TestHexValue
    ensures forall t :: input.show(t) == t
    ensures input.value == color && input.display == color && input.handled == []
  {
    input := new ValidatedInput(color, CleanHexValue, TestHexValue, t => t);
  }
}
