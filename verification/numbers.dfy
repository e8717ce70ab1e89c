/** JavaScript `Number(text)` on strings, as far as the record parser needs
    it: the StringNumericLiteral grammar of section 7.1.4.1.1 of ECMA-262
    decides exactly which texts are NaN, and optionally signed decimal
    integers are given their value. Every other accepted literal (a
    fraction, an exponent, `Infinity`, a `0x`/`0o`/`0b` literal) is a number
    whose value the model does not track. */
module Numbers {
  import opened Whitespace

  /** A JavaScript number produced by `Number(text)`. */
  datatype Num =
    | Int(value: int)  // an integer written in decimal, or the empty text
    | Opaque           // any other non-NaN number; its value is not modelled
    | NaN

  predicate IsDigit(c: char)
  {
    '0' <= c <= '9'
  }

  /** One or more decimal digits. */
  predicate IsDigits(s: string)
  {
    |s| > 0 && forall i :: 0 <= i < |s| ==> IsDigit(s[i])
  }

  predicate IsDigitsOrEmpty(s: string)
  {
    forall i :: 0 <= i < |s| ==> IsDigit(s[i])
  }

  predicate IsHexDigit(c: char)
  {
    IsDigit(c) || 'a' <= c <= 'f' || 'A' <= c <= 'F'
  }

  /** One or more digits of the kind `digit` accepts. */
  predicate AllOf(s: string, digit: char -> bool)
  {
    |s| > 0 && forall i :: 0 <= i < |s| ==> digit(s[i])
  }

  /** The value of a run of decimal digits (0 for the empty run). */
  function DigitsValue(s: string): nat
    requires IsDigitsOrEmpty(s)
  {
    if s == [] then 0
    else DigitsValue(s[..|s| - 1]) * 10 + (s[|s| - 1] as int - '0' as int)
  }

  function DigitChar(d: nat): (c: char)
    requires d < 10
    ensures IsDigit(c) && c as int - '0' as int == d
  {
    ('0' as int + d) as char
  }

  /** The decimal text of a natural number, as the record store writes scores. */
  function ShowNat(n: nat): (s: string)
    ensures IsDigits(s)
  {
    if n < 10 then [DigitChar(n)] else ShowNat(n / 10) + [DigitChar(n % 10)]
  }

  /** Reading back the decimal text of `n` gives `n`. */
  lemma {:induction false} ShowNatValue(n: nat)
    ensures DigitsValue(ShowNat(n)) == n
  {
    var s := ShowNat(n);
    if n < 10 {
      assert s[..0] == [];
    } else {
      assert s[..|s| - 1] == ShowNat(n / 10);
      ShowNatValue(n / 10);
    }
  }

  // The StringNumericLiteral grammar, on text that has already been trimmed.

  /** SignedInteger: decimal digits with an optional sign. */
  predicate IsSignedInteger(s: string)
  {
    IsDigits(s) || (|s| >= 2 && (s[0] == '+' || s[0] == '-') && IsDigits(s[1..]))
  }

  /** The digits-and-point part of a decimal literal: `12`, `12.`, `12.5`, `.5`. */
  predicate IsMantissa(m: string)
  {
    IsDigits(m)
    || exists j :: 0 <= j < |m| && m[j] == '.' && |m| >= 2
         && IsDigitsOrEmpty(m[..j]) && IsDigitsOrEmpty(m[j + 1..])
  }

  /** StrUnsignedDecimalLiteral: `Infinity`, or a mantissa with an optional exponent. */
  predicate IsUnsignedDecimal(s: string)
  {
    s == "Infinity" || IsMantissa(s)
    || exists i :: 0 <= i < |s| && (s[i] == 'e' || s[i] == 'E')
         && IsMantissa(s[..i]) && IsSignedInteger(s[i + 1..])
  }

  /** StrDecimalLiteral: an unsigned decimal literal with an optional sign. */
  predicate IsDecimalLiteral(s: string)
  {
    IsUnsignedDecimal(s)
    || (|s| >= 1 && (s[0] == '+' || s[0] == '-') && IsUnsignedDecimal(s[1..]))
  }

  /** NonDecimalIntegerLiteral: `0x`, `0o` or `0b` and digits of that base, no sign. */
  predicate IsRadixLiteral(s: string)
  {
    |s| >= 3 && s[0] == '0'
    && ((s[1] in "xX" && AllOf(s[2..], IsHexDigit))
        || (s[1] in "oO" && AllOf(s[2..], c => '0' <= c <= '7'))
        || (s[1] in "bB" && AllOf(s[2..], c => c == '0' || c == '1')))
  }

  predicate IsNumericLiteral(s: string)
  {
    IsDecimalLiteral(s) || IsRadixLiteral(s)
  }

  /** The value of an optionally signed decimal integer. */
  function SignedValue(s: string): int
    requires IsSignedInteger(s)
  {
    if IsDigits(s) then DigitsValue(s)
    else if s[0] == '-' then -(DigitsValue(s[1..]) as int)
    else DigitsValue(s[1..])
  }

  /** `Number(text)`: surrounding white space is ignored, the empty text is
      0, and text outside the numeric-literal grammar is NaN. */
  function ParseNum(text: string): (n: Num)
    ensures n.NaN? <==> Trim(text) != "" && !IsNumericLiteral(Trim(text))
    ensures Trim(text) == "" ==> n == Int(0)
    ensures IsSignedInteger(Trim(text)) ==> n == Int(SignedValue(Trim(text)))
    ensures n.Int? ==> Trim(text) == "" || IsSignedInteger(Trim(text))
  {
    var t := Trim(text);
    if t == "" then Int(0)
    else if IsSignedInteger(t) then
      assert IsUnsignedDecimal(if IsDigits(t) then t else t[1..]);
      Int(SignedValue(t))
    else if IsNumericLiteral(t) then Opaque
    else NaN
  }

  /** A score written in decimal, with any white space around it, reads
      back as that score. */
  lemma ParseShownNat(ws1: string, n: nat, ws2: string)
    requires AllSpace(ws1) && AllSpace(ws2)
    ensures ParseNum(ws1 + ShowNat(n) + ws2) == Int(n)
  {
    var s := ShowNat(n);
    assert !IsSpace(s[0]) && !IsSpace(s[|s| - 1]);
    TrimPadded(ws1, s, ws2);
    ShowNatValue(n);
  }

  /** A negative integer written with a minus sign reads back as itself. */
  lemma ParseShownNegative(n: nat)
    ensures ParseNum("-" + ShowNat(n)) == Int(-(n as int))
  {
    var s := "-" + ShowNat(n);
    NegativeShape(n);
    TrimNoEdge(s);
  }

  /** The text `-<digits>` is a signed integer of value `-n` with no white
      space at its ends. */
  lemma NegativeShape(n: nat)
    ensures IsSignedInteger("-" + ShowNat(n)) && NoEdgeSpace("-" + ShowNat(n))
    ensures SignedValue("-" + ShowNat(n)) == -(n as int)
  {
    var d := ShowNat(n);
    var s := "-" + d;
    assert s[0] == '-' && s[1..] == d && s[|s| - 1] == d[|d| - 1];
    assert !IsDigits(s) by { assert !IsDigit(s[0]); }
    assert IsDigit(d[|d| - 1]);
    ShowNatValue(n);
  }

  /** The characters any numeric literal is made of. */
  predicate IsLiteralChar(c: char)
  {
    IsHexDigit(c) || c in "+-.xXoObBInfinity"
  }

  lemma {:induction false} MantissaChars(m: string)
    requires IsMantissa(m)
    ensures forall i :: 0 <= i < |m| ==> IsLiteralChar(m[i])
  {
    if !IsDigits(m) {
      var j :| 0 <= j < |m| && m[j] == '.' && IsDigitsOrEmpty(m[..j]) && IsDigitsOrEmpty(m[j + 1..]);
      forall i | 0 <= i < |m| ensures IsLiteralChar(m[i]) {
        if i < j { assert m[..j][i] == m[i]; }
        else if i > j { assert m[j + 1..][i - j - 1] == m[i]; }
      }
    }
  }

  lemma {:induction false} UnsignedChars(s: string)
    requires IsUnsignedDecimal(s)
    ensures forall i :: 0 <= i < |s| ==> IsLiteralChar(s[i])
  {
    if s == "Infinity" {
      InfinityChars();
    } else if IsMantissa(s) {
      MantissaChars(s);
    } else {
      var e :| 0 <= e < |s| && (s[e] == 'e' || s[e] == 'E')
        && IsMantissa(s[..e]) && IsSignedInteger(s[e + 1..]);
      ExponentChars(s, e);
    }
  }

  lemma InfinityChars()
    ensures forall i :: 0 <= i < |"Infinity"| ==> IsLiteralChar("Infinity"[i])
  {
    var s := "Infinity";
    forall i | 0 <= i < |s| ensures IsLiteralChar(s[i]) {
      assert s[i] in s;
    }
  }

  lemma SignedChars(x: string)
    requires IsSignedInteger(x)
    ensures forall i :: 0 <= i < |x| ==> IsLiteralChar(x[i])
  {
    if !IsDigits(x) {
      forall i | 0 < i < |x| ensures IsLiteralChar(x[i]) {
        assert x[1..][i - 1] == x[i];
      }
    }
  }

  lemma ExponentChars(s: string, e: nat)
    requires e < |s| && (s[e] == 'e' || s[e] == 'E')
    requires IsMantissa(s[..e]) && IsSignedInteger(s[e + 1..])
    ensures forall i :: 0 <= i < |s| ==> IsLiteralChar(s[i])
  {
    MantissaChars(s[..e]);
    var x := s[e + 1..];
    SignedChars(x);
    forall i | 0 <= i < |s| ensures IsLiteralChar(s[i]) {
      if i < e { assert s[..e][i] == s[i]; }
      else if i > e { assert x[i - e - 1] == s[i]; }
    }
  }

  /** Every numeric literal is made of literal characters only. */
  lemma LiteralChars(t: string)
    ensures IsNumericLiteral(t) ==> forall i :: 0 <= i < |t| ==> IsLiteralChar(t[i])
  {
    if IsUnsignedDecimal(t) {
      UnsignedChars(t);
    }
    if |t| >= 1 && (t[0] == '+' || t[0] == '-') && IsUnsignedDecimal(t[1..]) {
      UnsignedChars(t[1..]);
      forall i | 0 < i < |t| ensures IsLiteralChar(t[i]) {
        assert t[1..][i - 1] == t[i];
      }
    }
    if IsRadixLiteral(t) {
      forall i | 2 <= i < |t| ensures IsLiteralChar(t[i]) {
        assert t[2..][i - 2] == t[i];
      }
    }
  }

  /** Text holding a character that no numeric literal uses is NaN; this is
      what makes a remark such as `Keep it up` a NaN number. */
  lemma ForeignCharIsNaN(text: string, k: nat)
    requires k < |Trim(text)| && !IsLiteralChar(Trim(text)[k])
    ensures ParseNum(text) == NaN
  {
    LiteralChars(Trim(text));
  }

  /** The characters a numeric literal can begin with. */
  predicate CanStartLiteral(c: char)
  {
    IsDigit(c) || c in ".+-I"
  }

  lemma MantissaStart(m: string)
    requires IsMantissa(m)
    ensures |m| > 0 && (IsDigit(m[0]) || m[0] == '.')
  {
    if !IsDigits(m) {
      var j :| 0 <= j < |m| && m[j] == '.' && IsDigitsOrEmpty(m[..j]) && IsDigitsOrEmpty(m[j + 1..]);
      if j > 0 {
        assert m[..j][0] == m[0];
      }
    }
  }

  lemma UnsignedStart(s: string)
    requires IsUnsignedDecimal(s)
    ensures |s| > 0 && CanStartLiteral(s[0])
  {
    if s == "Infinity" {
    } else if IsMantissa(s) {
      MantissaStart(s);
    } else {
      var e :| 0 <= e < |s| && (s[e] == 'e' || s[e] == 'E')
        && IsMantissa(s[..e]) && IsSignedInteger(s[e + 1..]);
      MantissaStart(s[..e]);
      assert s[..e][0] == s[0];
    }
  }

  /** Every numeric literal begins with a digit, a point, a sign or the `I`
      of `Infinity`. */
  lemma LiteralStart(t: string)
    ensures IsNumericLiteral(t) ==> |t| > 0 && CanStartLiteral(t[0])
  {
    if IsUnsignedDecimal(t) {
      UnsignedStart(t);
    }
  }

  /** Text beginning with any other character is NaN: `abc`, although made
      of hexadecimal digits, is not a number. */
  lemma LeadingCharIsNaN(text: string)
    requires Trim(text) != "" && !CanStartLiteral(Trim(text)[0])
    ensures ParseNum(text) == NaN
  {
    LiteralStart(Trim(text));
  }

  /** A word without surrounding space whose first character cannot begin
      a literal is NaN. */
  lemma WordIsNaN(w: string)
    requires w != [] && !IsSpace(w[0]) && !IsSpace(w[|w| - 1]) && !CanStartLiteral(w[0])
    ensures ParseNum(w) == NaN
  {
    TrimNoEdge(w);
    LeadingCharIsNaN(w);
  }
}
