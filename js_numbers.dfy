/**
 * The integer-valued part of JavaScript's Number type: the values a count,
 * a year or a day of the month can take, and NaN. Floating-point values that
 * are not integers are outside this model.
 */
module JsNumbers {
  import opened Strings

  datatype Num = NaN | Int(value: int)

  /** `String(n)` and the text a template literal writes for `n`. */
  function ToText(n: Num): (s: string)
    ensures n.NaN? ==> s == "NaN"
    ensures n.Int? ==> s == IntToString(n.value)
  {
    match n
    case NaN => "NaN"
    case Int(i) => IntToString(i)
  }

  /** `String(n).padStart(2, '0')`. */
  function PadText2(n: Num): (s: string)
    ensures n.Int? && n.value >= 0 ==> s == PadNat(n.value, 2)
    ensures n.NaN? ==> s == "NaN"
  {
    PadStart(ToText(n), 2, '0')
  }

  /** `a + b` on numbers; NaN is absorbing. */
  function Add(a: Num, b: Num): (r: Num)
    ensures r.Int? <==> a.Int? && b.Int?
    ensures r.Int? ==> r.value == a.value + b.value
  {
    if a.Int? && b.Int? then Int(a.value + b.value) else NaN
  }

  /** `a - b` on numbers; NaN is absorbing. */
  function Sub(a: Num, b: Num): (r: Num)
    ensures r.Int? <==> a.Int? && b.Int?
    ensures r.Int? ==> r.value == a.value - b.value
  {
    if a.Int? && b.Int? then Int(a.value - b.value) else NaN
  }

  /** ToBoolean on numbers: only 0 and NaN are falsy. */
  predicate Truthy(n: Num) {
    n.Int? && n.value != 0
  }

  /** `x || 0` for a number `x`: NaN becomes 0. */
  function OrZero(n: Num): (r: int)
    ensures n.Int? ==> r == n.value
    ensures n.NaN? ==> r == 0
  {
    if Truthy(n) then n.value else 0
  }

  /** `a < b` on numbers: false whenever either is NaN. */
  predicate Less(a: Num, b: Num) {
    a.Int? && b.Int? && a.value < b.value
  }

  /** `a === b` on numbers: NaN equals nothing, not even itself. */
  predicate StrictEquals(a: Num, b: Num) {
    a.Int? && b.Int? && a.value == b.value
  }

  /**
   * ToNumber applied to a string (`Number(s)`, `+s`): white space is trimmed,
   * the empty string is 0, and an optionally signed run of decimal digits is
   * its value. Every other text is NaN here.
   */
  function StringToNumber(s: string): (r: Num)
    ensures Trim(s) == "" ==> r == Int(0)
    ensures Trim(s) != "" && AllDigits(Trim(s)) ==> r == Int(DigitsValue(Trim(s)))
  {
    var t := Trim(s);
    if t == [] then Int(0)
    else if |t| > 1 && (t[0] == '+' || t[0] == '-') && AllDigits(t[1..]) then
      Int(if t[0] == '-' then -(DigitsValue(t[1..]) as int) else DigitsValue(t[1..]))
    else if AllDigits(t) then Int(DigitsValue(t))
    else NaN
  }

  lemma NoSpaceInDigits(s: string)
    requires AllDigits(s)
    ensures forall i | 0 <= i < |s| :: !IsJsSpace(s[i])
  {
  }

  /** `Number(String(i)) === i` for every integer. */
  lemma StringToNumberOfText(i: int)
    ensures StringToNumber(IntToString(i)) == Int(i)
  {
    var s := IntToString(i);
    if i >= 0 {
      DigitsValueOfNatToString(i);
      NoSpaceInDigits(s);
    } else {
      NegativeTextUntrimmed(i);
      DigitsValueOfNatToString(-i);
      assert s[1..] == NatToString(-i);
    }
  }

  /** The text of a negative integer has no white space to trim. */
  lemma NegativeTextUntrimmed(i: int)
    requires i < 0
    ensures Trim(IntToString(i)) == IntToString(i) && IntToString(i)[0] == '-'
  {
    var s := IntToString(i);
    var d := NatToString(-i);
    assert s[1..] == d;
    forall k | 0 <= k < |s| ensures !IsJsSpace(s[k]) {
      if k > 0 {
        assert s[k] == d[k - 1];
      }
    }
  }

  /** A zero-padded field reads back as its value. */
  lemma StringToNumberOfPad2(n: nat)
    ensures StringToNumber(Pad2(n)) == Int(n)
  {
    PadNatValue(n, 2);
    NoSpaceInDigits(Pad2(n));
  }

  /** `Number("")` and `Number("   ")` are 0, not NaN. */
  lemma BlankIsZero()
    ensures StringToNumber("") == Int(0)
    ensures StringToNumber("  ") == Int(0)
  {
    assert Trim("  ") == [] by {
      assert forall i | 0 <= i < |"  "| :: IsJsSpace("  "[i]);
    }
  }
}
