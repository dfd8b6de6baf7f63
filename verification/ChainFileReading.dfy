/** What the pointer-chain file looks like, and what its parser makes of files it did not write. */
module ChainFileReading {
  import opened Common
  import opened Text
  import opened NumeralReading
  import opened PointerChainFile
  import opened PointerChainRoundTrip

  // ---------------------------------------------------------------- the text written

  lemma {:induction false} NoLeadingZero(n: nat)
    ensures n > 0 ==> HexText(n)[0] != '0'
    ensures n == 0 ==> HexText(n) == "0"
    decreases n
  {
    if n >= 16 {
      NoLeadingZero(n / 16);
    }
  }

  /** A printed numeral has the width asked for, and is longer only when its digits are, without leading zeros. */
  lemma PaddedIsLeast(n: nat, width: nat)
    ensures var s := Padded(n, width);
      |s| >= width && (|s| > Max(1, width) ==> s[0] != '0')
  {
    hide HexText;
    NoLeadingZero(n);
  }

  /** Offsets are quoted, prefixed, at least two digits wide, and separated by a comma and a space. */
  lemma OffsetsLookLike(x: U64, y: U64)
    ensures OffsetsText([]) == "" && OffsetsText([x]) == "\"0x" + Padded(x, 2) + "\""
    ensures OffsetsText([x, y]) == "\"0x" + Padded(x, 2) + "\"" + ", " + ("\"0x" + Padded(y, 2) + "\"")
  {
    hide Padded;
    assert [x, y][..1] == [x] && [x][..0] == [];
    assert OffsetsText([x]) == OffsetText(x);
  }

  /** The whole file for two chains, line by line; the base is at least eight digits wide. */
  lemma FileLooksLike(e: Named, f: Named)
    ensures FileText([e, f]) == Unlines([
      "{",
      "  \"chains\": [",
      "    {",
      "      \"name\": \"" + e.name + "\",",
      "      \"base\": \"0x" + Padded(e.chain.base, 8) + "\",",
      "      \"offsets\": [" + OffsetsText(e.chain.offsets) + "]",
      "    },",
      "    {",
      "      \"name\": \"" + f.name + "\",",
      "      \"base\": \"0x" + Padded(f.chain.base, 8) + "\",",
      "      \"offsets\": [" + OffsetsText(f.chain.offsets) + "]",
      "    }",
      "  ]",
      "}"])
  {
    hide FileText, Unlines, Padded, OffsetsText;
    FileAsLines([e, f]);
    LinesOfTwo(e, f);
  }

  lemma LinesOfTwo(e: Named, f: Named)
    ensures FileLines([e, f]) == [
      "{",
      "  \"chains\": [",
      "    {",
      "      \"name\": \"" + e.name + "\",",
      "      \"base\": \"0x" + Padded(e.chain.base, 8) + "\",",
      "      \"offsets\": [" + OffsetsText(e.chain.offsets) + "]",
      "    },",
      "    {",
      "      \"name\": \"" + f.name + "\",",
      "      \"base\": \"0x" + Padded(f.chain.base, 8) + "\",",
      "      \"offsets\": [" + OffsetsText(f.chain.offsets) + "]",
      "    }",
      "  ]",
      "}"]
  {
    hide Padded, OffsetsText, EntryLines;
    assert [e, f][..1] == [e] && [e][..0] == [];
    assert EntriesLines([e], ",") == [] + EntryLines(e, ",");
    LinesOfEntry(e, ",");
    LinesOfEntry(f, "");
    assert "    }" + "," == "    }," && "    }" + "" == "    }";
  }

  lemma LinesOfEntry(e: Named, tail: string)
    ensures EntryLines(e, tail) == [
      "    {",
      "      \"name\": \"" + e.name + "\",",
      "      \"base\": \"0x" + Padded(e.chain.base, 8) + "\",",
      "      \"offsets\": [" + OffsetsText(e.chain.offsets) + "]",
      "    }" + tail]
  {
    hide Padded, OffsetsText;
  }

  // ---------------------------------------------------------------- indentation and commas

  lemma {:induction false} StripLeftSkips(before: string, s: string, chars: string)
    requires AllIn(before, chars)
    ensures StripLeft(before + s, chars) == StripLeft(s, chars)
    decreases |before|
  {
    if before == "" {
      assert before + s == s;
    } else {
      assert (before + s)[1..] == before[1..] + s;
      StripLeftSkips(before[1..], s, chars);
    }
  }

  lemma {:induction false} StripRightSkips(s: string, after: string, chars: string)
    requires AllIn(after, chars)
    ensures StripRight(s + after, chars) == StripRight(s, chars)
    decreases |after|
  {
    if after == "" {
      assert s + after == s;
    } else {
      var t := s + after;
      assert t[..|t| - 1] == s + after[..|after| - 1];
      StripRightSkips(s, after[..|after| - 1], chars);
    }
  }

  /** Stripping the front of a text with something behind it: what is left of the text and the rest, or, when nothing
      is, what is left of the rest. */
  lemma {:induction false} StripLeftWith(s: string, after: string, chars: string)
    ensures StripLeft(s + after, chars) ==
      if StripLeft(s, chars) == "" then StripLeft(after, chars) else StripLeft(s, chars) + after
    decreases |s|
  {
    if s == "" {
      assert s + after == after;
    } else {
      assert (s + after)[1..] == s[1..] + after;
      StripLeftWith(s[1..], after, chars);
    }
  }

  lemma {:induction false} StripLeftIsIn(s: string, chars: string, more: string)
    requires AllIn(s, more)
    ensures AllIn(StripLeft(s, chars), more)
    decreases |s|
  {
    if s != "" && s[0] in chars {
      StripLeftIsIn(s[1..], chars, more);
    }
  }

  /** Blanks before a line, and blanks and commas behind it, change nothing. */
  lemma IndentationIsFree(s: LoadState, before: string, line: string, after: string)
    requires AllIn(before, " \t\r\n") && AllIn(after, " \t\r\n,")
    ensures ParseLine(s, before + line + after) == ParseLine(s, line)
  {
    hide StripLeft, StripRight, ParseTrimmed;
    var commas := " \t\r\n,";
    assert before + line + after == before + (line + after);
    StripLeftSkips(before, line + after, BLANKS);
    StripLeftWith(line, after, BLANKS);
    StripRightSkips(StripLeft(line, BLANKS), after, commas);
    StripLeftIsIn(after, BLANKS, commas);
    StripRightSkips("", StripLeft(after, BLANKS), commas);
    assert "" + StripLeft(after, BLANKS) == StripLeft(after, BLANKS);
  }

  // ---------------------------------------------------------------- numerals

  lemma {:induction false} SkipSpacesOf(spaces: string, s: string)
    requires AllIn(spaces, SPACES) && (s == "" || !IsSpace(s[0]))
    ensures SkipSpaces(spaces + s) == s
    decreases |spaces|
  {
    if spaces == "" {
      assert spaces + s == s;
    } else {
      SpacesAre(spaces[0]);
      assert (spaces + s)[1..] == spaces[1..] + s;
      SkipSpacesOf(spaces[1..], s);
    }
  }

  /** `stoull` in base 16: whitespace, a sign and a prefix are allowed, what follows the digits is ignored, from 2^64 on
      the number is out of range, and a minus sign negates it modulo 2^64. */
  lemma StoullReads(spaces: string, sign: string, prefix: string, digits: string, rest: string)
    requires AllIn(spaces, SPACES) && sign in {"", "+", "-"} && prefix in {"", "0x", "0X"}
    requires digits != "" && AllHex(digits) && (rest == "" || !IsHexDigit(rest[0]))
    requires prefix == "" && digits == "0" && |rest| >= 2 && rest[0] in "xX" ==> !IsHexDigit(rest[1])
    ensures var n := HexNumber(digits);
      Stoull(spaces + (sign + prefix + digits + rest)) ==
        if n >= 0x1_0000_0000_0000_0000 then Err(OutOfRange)
        else Ok(Signed(sign == "-", n) % 0x1_0000_0000_0000_0000)
  {
    hide HexNumber, SignedHex, SkipSpaces, AllHex;
    var s := sign + prefix + digits + rest;
    StrtoulReads(sign, prefix, digits, rest);
    NumeralFront(sign, prefix, digits, rest);
    SkipSpacesOf(spaces, s);
  }

  lemma NumeralFront(sign: string, prefix: string, digits: string, rest: string)
    requires sign in {"", "+", "-"} && prefix in {"", "0x", "0X"} && digits != "" && AllHex(digits)
    ensures var s := sign + prefix + digits + rest; s != "" && !IsSpace(s[0])
  {
    var s := sign + prefix + digits + rest;
    if sign != "" {
      assert s[0] == sign[0];
    } else if prefix != "" {
      assert s[0] == prefix[0];
    } else {
      assert s[0] == digits[0] && IsHexDigit(digits[0]);
    }
  }

  /** Text that does not begin with a digit, a sign or whitespace is no number. */
  lemma StoullRefuses(s: string)
    requires s == "" || !(IsHexDigit(s[0]) || IsSpace(s[0]) || s[0] in "+-")
    ensures Stoull(s) == Err(InvalidArgument)
  {
    StrtoulNeedsDigits("", s);
    assert "" + s == s;
  }

  lemma StoullOfDigits(prefix: string, digits: string)
    requires prefix in {"", "0x", "0X"} && digits != "" && AllHex(digits)
    ensures Stoull(prefix + digits) ==
      if HexNumber(digits) >= 0x1_0000_0000_0000_0000 then Err(OutOfRange) else Ok(HexNumber(digits))
  {
    hide HexNumber, Stoull;
    StoullReads("", "", prefix, digits, "");
    assert "" + ("" + prefix + digits + "") == prefix + digits;
  }

  /** A base: digits in either case, with or without a prefix in either case. */
  lemma BaseNumeralReads(prefix: string, digits: string)
    requires prefix in {"", "0x", "0X"} && digits != "" && AllHex(digits)
    ensures ParseBase(QuotedLine("base", prefix + digits)) ==
      if HexNumber(digits) >= 0x1_0000_0000_0000_0000 then Err(OutOfRange) else Ok(HexNumber(digits))
  {
    hide HexNumber, Stoull, QuotedValue;
    var value := prefix + digits;
    NoQuoteInNumeral(prefix, digits);
    QuotedReadsBack("base", value);
    StoullOfDigits(prefix, digits);
    StoullOfDigits("", digits);
    assert "" + digits == digits;
    if prefix == "" {
      assert value == digits;
      assert |digits| > 1 ==> IsHexDigit(digits[1]);
    } else {
      assert value[2..] == digits && value[1] == prefix[1];
    }
  }

  lemma NoQuoteInNumeral(prefix: string, digits: string)
    requires prefix in {"", "0x", "0X"} && AllHex(digits)
    ensures '\"' !in prefix + digits
  {
    forall c | c in digits ensures c != '\"' {
      var i :| 0 <= i < |digits| && digits[i] == c;
    }
  }

  /** An offset: digits in either case, with or without a prefix in either case, between blanks and quotes; a token of
      blanks and quotes only is skipped. */
  lemma OffsetNumeralReads(before: string, prefix: string, digits: string, after: string)
    requires AllIn(before, BLANKS + "\"") && AllIn(after, BLANKS + "\"")
    requires prefix in {"", "0x", "0X"} && digits != "" && AllHex(digits)
    ensures ParseOffset(before + (prefix + digits) + after) ==
      Some(if HexNumber(digits) >= 0x1_0000_0000_0000_0000 then Err(OutOfRange) else Ok(HexNumber(digits)))
    ensures ParseOffset(before) == None
  {
    hide HexNumber, Stoull, StripLeft, StripRight;
    var chars, value := BLANKS + "\"", prefix + digits;
    NumeralEnds(prefix, digits);
    assert before + value + after == before + (value + after) && (value + after)[0] == value[0];
    StripLeftOf(before, value + after, chars);
    StripRightOf(value, after, chars);
    StoullOfDigits(prefix, digits);
    StoullOfDigits("", digits);
    assert "" + digits == digits;
    if prefix == "" {
      assert value == digits;
      assert |digits| > 1 ==> IsHexDigit(digits[1]);
    } else {
      assert value[2..] == digits && HasHexPrefix(value);
    }
    StripLeftSkips(before, "", chars);
    assert before + "" == before;
    NothingToStrip(chars);
  }

  lemma NothingToStrip(chars: string)
    ensures StripLeft("", chars) == "" && StripRight("", chars) == ""
  {
  }

  lemma NumeralEnds(prefix: string, digits: string)
    requires prefix in {"", "0x", "0X"} && digits != "" && AllHex(digits)
    ensures var (s, chars) := (prefix + digits, BLANKS + "\"");
      s != "" && s[0] !in chars && s[|s| - 1] !in chars
  {
    var s := prefix + digits;
    assert s[|s| - 1] == digits[|digits| - 1] && IsHexDigit(digits[|digits| - 1]);
    assert s[0] == if prefix == "" then digits[0] else prefix[0];
    assert IsHexDigit(s[0]);
    DigitIsNoBlank(s[0]);
    DigitIsNoBlank(s[|s| - 1]);
  }

  lemma DigitIsNoBlank(c: char)
    requires IsHexDigit(c)
    ensures c !in BLANKS + "\""
  {
  }

  // ---------------------------------------------------------------- what loading leaves alone

  lemma ParseLineKeeps(s: LoadState, line: string, name: string)
    requires name in s.chains
    ensures name in ParseLine(s, line).chains
    ensures ParseLine(s, line).chains[name] == s.chains[name] || name == s.draft.name
  {
    hide TrimLine, Contains, ParseBase, Bracketed, ParseOffsets, Pieces, QuotedValue;
  }

  /** Loading never drops a chain, whatever is in the file and whether or not it throws. */
  lemma {:induction false} LoadingKeeps(s: LoadState, lines: seq<string>, name: string)
    requires name in s.chains
    ensures name in ParseLines(s, lines).chains
    decreases |lines|
  {
    hide ParseLine;
    if lines != [] {
      var n := |lines| - 1;
      LoadingKeeps(s, lines[..n], name);
      ParseLineKeeps(ParseLines(s, lines[..n]), lines[n], name);
    }
  }
}
