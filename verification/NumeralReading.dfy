/** How hexadecimal numerals and whitespace are read, as `strtoul` reads them in base 16. */
module NumeralReading {
  import opened Common
  import opened Text

  // ---------------------------------------------------------------- digits and whitespace

  const DIGITS := "0123456789abcdef"

  /** The whitespace characters: space, tab, line feed, vertical tab, form feed and carriage return. */
  const SPACES := " \t\n\U{B}\U{C}\r"

  /** A hexadecimal digit stands for its place in the list of digits, in either case. */
  lemma HexValueIsIndex(c: char)
    ensures IsHexDigit(c) <==> Lower(c) in DIGITS
    ensures IsHexDigit(c) ==> DIGITS[HexValue(c)] == Lower(c)
  {
  }

  lemma SpacesAre(c: char)
    ensures IsSpace(c) <==> c in SPACES
  {
  }

  // ---------------------------------------------------------------- strtoul

  lemma {:induction false} HexLengthOfFront(digits: string, rest: string)
    requires AllHex(digits) && (rest == "" || !IsHexDigit(rest[0]))
    ensures HexLength(digits + rest) == |digits|
    decreases |digits|
  {
    if digits == "" {
      assert digits + rest == rest;
    } else {
      assert (digits + rest)[1..] == digits[1..] + rest;
      HexLengthOfFront(digits[1..], rest);
    }
  }

  /** `strtoul` in base 16: an optional sign, an optional `0x` before a digit, then the digits, whatever follows. */
  lemma StrtoulReads(sign: string, prefix: string, digits: string, rest: string)
    requires sign in {"", "+", "-"} && prefix in {"", "0x", "0X"}
    requires digits != "" && AllHex(digits) && (rest == "" || !IsHexDigit(rest[0]))
    requires prefix == "" && digits == "0" && |rest| >= 2 && rest[0] in "xX" ==> !IsHexDigit(rest[1])
    ensures SignedHex(sign + prefix + digits + rest) == Some((sign == "-", HexNumber(digits)))
  {
    hide SignedHex, HexNumber, AllHex, HasHexPrefix;
    var unsigned := prefix + (digits + rest);
    UnsignedReads(prefix, digits, rest);
    SignIsSeparate(sign, unsigned);
    assert sign + prefix + digits + rest == sign + unsigned;
  }

  lemma UnsignedReads(prefix: string, digits: string, rest: string)
    requires prefix in {"", "0x", "0X"}
    requires digits != "" && AllHex(digits) && (rest == "" || !IsHexDigit(rest[0]))
    requires prefix == "" && digits == "0" && |rest| >= 2 && rest[0] in "xX" ==> !IsHexDigit(rest[1])
    ensures var s := prefix + (digits + rest);
      s != "" && IsHexDigit(s[0]) && SignedHex(s) == Some((false, HexNumber(digits)))
  {
    hide SignedHex, HexNumber, AllHex;
    var tail := digits + rest;
    assert tail[0] == digits[0] && tail[..|digits|] == digits;
    FirstIsDigit(digits);
    HexLengthOfFront(digits, rest);
    if prefix == "" {
      SecondOf(digits, rest);
      UnprefixedReads(tail);
      assert "" + tail == tail;
    } else {
      PrefixedReads(prefix, tail);
    }
  }

  lemma FirstIsDigit(s: string)
    requires s != "" && AllHex(s)
    ensures IsHexDigit(s[0])
  {
  }

  lemma UnprefixedReads(s: string)
    requires s != "" && IsHexDigit(s[0])
    requires HasHexPrefix(s) && |s| > 2 ==> !IsHexDigit(s[2])
    ensures SignedHex(s) == Some((false, HexNumber(s[..HexLength(s)])))
  {
    hide HexNumber;
  }

  lemma PrefixedReads(prefix: string, s: string)
    requires prefix in {"0x", "0X"} && s != "" && IsHexDigit(s[0])
    ensures SignedHex(prefix + s) == Some((false, HexNumber(s[..HexLength(s)])))
  {
    hide HexNumber;
    assert (prefix + s)[2..] == s;
  }

  /** A sign only sets the sign. */
  lemma SignIsSeparate(sign: string, s: string)
    requires sign in {"", "+", "-"} && s != "" && IsHexDigit(s[0]) && SignedHex(s).Some?
    ensures SignedHex(sign + s) == Some((sign == "-", SignedHex(s).value.1))
  {
    hide HexNumber, HexLength, IsHexDigit;
    assert IsHexDigit(s[0]) ==> s[0] != '-' && s[0] != '+' by { NotASign(s[0]); }
    if sign == "" {
      assert sign + s == s;
    } else {
      assert (sign + s)[1..] == s && (sign + s)[0] == sign[0];
    }
  }

  lemma NotASign(c: char)
    requires IsHexDigit(c)
    ensures c != '-' && c != '+'
  {
  }

  /** The second character of digits with something behind them. */
  lemma SecondOf(digits: string, rest: string)
    requires digits != "" && AllHex(digits)
    ensures var s := digits + rest;
      |s| > 2 && HasHexPrefix(s) ==> digits == "0" && |rest| >= 2 && rest[0] in "xX" && s[2] == rest[1]
  {
    var s := digits + rest;
    if |digits| > 1 {
      assert s[1] == digits[1] && IsHexDigit(digits[1]);
    } else {
      assert digits == [digits[0]] && s[0] == digits[0];
    }
  }

  /** Text without digits has no value. */
  lemma StrtoulNeedsDigits(sign: string, rest: string)
    requires sign in {"", "+", "-"}
    requires rest == "" || (!IsHexDigit(rest[0]) && (sign == "" ==> rest[0] !in "+-"))
    ensures SignedHex(sign + rest) == None
  {
    var s := sign + rest;
    if sign == "" {
      assert s == rest;
    } else {
      assert s[1..] == rest && s[0] == sign[0];
    }
  }

  function Signed(negative: bool, n: int): int {
    if negative then -n else n
  }
}
