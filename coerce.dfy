/** `to_native_type`: the fixed-order coercion of a string to a bool, an int or itself. */
module Coerce {
  import opened Text
  import opened Values

  lemma LowerKeepsDigits(s: string)
    ensures IsDigits(Lower(s)) <==> IsDigits(s)
    ensures IsDigits(s) ==> Lower(s) == s
  {
    var l := Lower(s);
    if IsDigits(s) {
      assert forall i :: 0 <= i < |s| ==> l[i] == s[i];
    }
    if IsDigits(l) {
      forall i | 0 <= i < |s| ensures IsDigit(s[i]) {
        assert IsDigit(l[i]);
      }
    }
  }

  /** `to_native_type(value)`: non-strings pass through; otherwise, in this order,
      case-insensitive "true" and "false" become bools, a non-empty run of decimal
      digits becomes its integer value, and anything else is returned unchanged. */
  function ToNative(v: Value): (r: Value)
    ensures !v.Str? ==> r == v
    ensures v.Str? ==> (r == Bool(true) <==> Lower(v.s) == "true")
    ensures v.Str? ==> (r == Bool(false) <==> Lower(v.s) == "false")
    ensures v.Str? ==> (r.Int? <==> IsDigits(v.s))
    ensures r.Int? && v.Str? ==> r.i == DigitsValue(v.s)
    ensures v.Str? && !r.Bool? && !r.Int? ==> r == v
  {
    if !v.Str? then v
    else
      var lower := Lower(v.s);
      LowerKeepsDigits(v.s);
      if lower == "true" then Bool(true)
      else if lower == "false" then Bool(false)
      else if IsDigits(lower) then Int(DigitsValue(lower))
      else v
  }

  /** Leading zeros are lost. */
  lemma ToNativeLeadingZeros()
    ensures ToNative(Str("007")) == Int(7)
  {
    assert Lower("007") == "007";
    calc {
      DigitsValue("007");
      { assert "007"[..2] == "00" && "00"[..1] == "0" && "0"[..0] == ""; }
      7;
    }
  }

  /** Letter case of `true` is ignored. */
  lemma ToNativeTrue()
    ensures ToNative(Str("TrUe")) == Bool(true)
  {
    assert Lower("TrUe") == "true";
  }

  /** Letter case of `false` is ignored. */
  lemma ToNativeFalse()
    ensures ToNative(Str("FALSE")) == Bool(false)
  {
    assert Lower("FALSE") == "false";
  }

  /** The empty string, a digit with a space before it and a negative number stay strings. */
  lemma ToNativeUnsigned()
    ensures ToNative(Str("")) == Str("")
    ensures ToNative(Str(" 1")) == Str(" 1")
    ensures ToNative(Str("-1")) == Str("-1")
  {
    assert !IsDigit(" 1"[0]) && !IsDigit("-1"[0]);
    assert Lower(" 1") == " 1" && Lower("-1") == "-1";
  }

  /** Printing a natural number and coercing the text gives the number back. */
  lemma ToNativeDecimal(n: nat)
    ensures ToNative(Str(DecimalString(n))) == Int(n)
  {
    DecimalStringValue(n);
  }

  /** The port used in the examples. */
  lemma ToNativePort()
    ensures ToNative(Str("25565")) == Int(25565)
  {
    assert DecimalString(25565) == "25565";
    ToNativeDecimal(25565);
  }

  /** Text holding an `=` anywhere is neither a bool word nor a run of digits. */
  lemma ToNativeKeepsText(s: string, i: nat)
    requires i < |s| && s[i] == '='
    ensures ToNative(Str(s)) == Str(s)
  {
    assert Lower(s)[i] == '=';
    assert !IsDigit(s[i]);
  }

  /** The coercion is idempotent: a coerced value is not coerced any further. */
  lemma ToNativeIdempotent(v: Value)
    ensures ToNative(ToNative(v)) == ToNative(v)
  {
  }

  // ---- `str.isdigit` beyond ASCII ----

  /** `str.isdigit` on a Latin-1 character: the ASCII digits and the superscripts
      one, two and three. */
  predicate Latin1IsDigit(c: char) {
    IsDigit(c) || c == '\U{B9}' || c == '\U{B2}' || c == '\U{B3}'
  }

  /** `to_native_type` exactly as written, on Latin-1 text: the digit test is
      `str.isdigit`, which accepts superscript digits, and `int()` rejects those
      with a `ValueError`. */
  function ToNativeAsWritten(v: Value): (r: Result<Value>)
    ensures r.Ok? && v.Str? && (forall i :: 0 <= i < |v.s| ==> v.s[i] <= '\U{FF}') ==> r.value == ToNative(v)
    ensures r.Err? <==>
      && v.Str?
      && |Lower(v.s)| > 0 && (forall i :: 0 <= i < |Lower(v.s)| ==> Latin1IsDigit(Lower(v.s)[i]))
      && (exists i :: 0 <= i < |Lower(v.s)| && Lower(v.s)[i] in "\U{B9}\U{B2}\U{B3}")
  {
    if !v.Str? then Ok(v)
    else
      var lower := Lower(v.s);
      LowerKeepsDigits(v.s);
      if lower == "true" then Ok(Bool(true))
      else if lower == "false" then Ok(Bool(false))
      else if |lower| > 0 && forall i :: 0 <= i < |lower| ==> Latin1IsDigit(lower[i]) then
        if IsDigits(lower) then Ok(Int(DigitsValue(lower)))
        else Err("ValueError: invalid literal for int() with base 10")
      else Ok(v)
  }

  /** A value consisting of a superscript two passes the digit test and makes
      `int()` raise, which aborts the whole hook. */
  lemma SuperscriptDigitRaises()
    ensures ToNativeAsWritten(Str("\U{B2}")).Err?
    ensures ToNative(Str("\U{B2}")) == Str("\U{B2}")
  {
    assert Lower("\U{B2}") == "\U{B2}";
    assert !IsDigit("\U{B2}"[0]);
  }
}
