/** How the readers of signatures treat digits, letter case, whitespace and malformed text. */
module SignatureReading {
  import opened Common
  import opened Text
  import opened NumeralReading
  import P = SignaturePattern
  import V = SignatureValidator
  import S = SignatureScan
  import E = EnhancedScanner

  // ---------------------------------------------------------------- words

  /** Each of the whitespace characters separates words. */
  lemma {:induction false} SpaceSplitsWords(s: string, c: char, t: string)
    requires c in SPACES
    ensures Words(s + [c] + t) == Words(s) + Words(t)
    decreases |s|
  {
    SpacesAre(c);
    var u := s + [c] + t;
    if s == "" {
      assert u == [c] + t && u[1..] == t;
    } else if IsSpace(s[0]) {
      assert u[1..] == s[1..] + [c] + t;
      SpaceSplitsWords(s[1..], c, t);
    } else {
      var n := WordLength(s);
      var rest := s[n..] + [c] + t;
      assert u == s[..n] + rest;
      WordsOfFront(s[..n], rest);
      SpaceSplitsWords(s[n..], c, t);
    }
  }

  /** Nothing else does. */
  lemma OtherTextIsOneWord(w: string)
    requires w != "" && forall c :: c in SPACES ==> c !in w
    ensures Words(w) == [w]
  {
    forall i | 0 <= i < |w| ensures !IsSpace(w[i]) {
      SpacesAre(w[i]);
    }
    WordsOfFront(w, "");
    assert w + "" == w;
  }

  // ---------------------------------------------------------------- letter case

  function UpperAll(s: string): (t: string)
    ensures |t| == |s|
  {
    seq(|s|, i requires 0 <= i < |s| => Upper(s[i]))
  }

  function LowerAll(s: string): (t: string)
    ensures |t| == |s|
  {
    seq(|s|, i requires 0 <= i < |s| => Lower(s[i]))
  }

  function UpperEach(ws: seq<string>): (us: seq<string>)
    ensures |us| == |ws|
  {
    seq(|ws|, i requires 0 <= i < |ws| => UpperAll(ws[i]))
  }

  lemma SpaceIsCaseless(c: char)
    ensures IsSpace(Upper(c)) == IsSpace(c)
  {
  }

  lemma UpperEachStep(w: string, ws: seq<string>)
    ensures UpperEach([w] + ws) == [UpperAll(w)] + UpperEach(ws)
  {
  }

  lemma FirstWord(s: string)
    requires s != "" && !IsSpace(s[0])
    ensures var n := WordLength(s); IsWord(s[..n]) && Words(s) == [s[..n]] + Words(s[n..])
    ensures var n := WordLength(s); n == |s| || IsSpace(s[n])
  {
  }

  lemma UpperWord(w: string)
    requires IsWord(w)
    ensures IsWord(UpperAll(w))
  {
    forall i | 0 <= i < |w| ensures !IsSpace(UpperAll(w)[i]) {
      SpaceIsCaseless(w[i]);
    }
  }

  lemma {:induction false} WordsOfUpper(s: string)
    ensures Words(UpperAll(s)) == UpperEach(Words(s))
    decreases |s|
  {
    hide IsSpace, Upper, UpperEach, WordLength, IsWord;
    if s == "" {
      NoWords();
    } else {
      SpaceIsCaseless(s[0]);
      if IsSpace(s[0]) {
        assert UpperAll(s)[1..] == UpperAll(s[1..]);
        WordsOfUpper(s[1..]);
      } else {
        FirstWord(s);
        var w, rest := s[..WordLength(s)], s[WordLength(s)..];
        UpperWord(w);
        if rest != "" {
          SpaceIsCaseless(rest[0]);
        }
        assert UpperAll(s) == UpperAll(w) + UpperAll(rest);
        WordsOfFront(UpperAll(w), UpperAll(rest));
        WordsOfUpper(rest);
        UpperEachStep(w, Words(rest));
      }
    }
  }

  lemma NoWords()
    ensures UpperAll("") == "" && UpperEach([]) == []
  {
  }

  lemma DigitIsCaseless(c: char)
    ensures IsHexDigit(Upper(c)) == IsHexDigit(c)
    ensures IsHexDigit(c) ==> HexValue(Upper(c)) == HexValue(c)
  {
  }

  lemma {:induction false} NumberIsCaseless(s: string)
    ensures AllHex(UpperAll(s)) == AllHex(s)
    ensures AllHex(s) ==> HexNumber(UpperAll(s)) == HexNumber(s)
    decreases |s|
  {
    forall i | 0 <= i < |s| ensures IsHexDigit(UpperAll(s)[i]) == IsHexDigit(s[i]) {
      DigitIsCaseless(s[i]);
    }
    if s != "" {
      var n := |s| - 1;
      NumberIsCaseless(s[..n]);
      DigitIsCaseless(s[n]);
      assert UpperAll(s)[..n] == UpperAll(s[..n]);
    }
  }

  lemma CellIsCaseless(token: string)
    ensures P.CellOf(UpperAll(token)) == P.CellOf(token)
  {
    NumberIsCaseless(token);
    var u := UpperAll(token);
    if |token| == 1 {
      MarkIsCaseless(token[0]);
      assert token == [token[0]] && u == [Upper(token[0])];
    } else if |token| == 2 {
      MarkIsCaseless(token[0]);
      MarkIsCaseless(token[1]);
      assert token == [token[0], token[1]] && u == [Upper(token[0]), Upper(token[1])];
    }
  }

  lemma MarkIsCaseless(c: char)
    ensures Upper(c) == '?' <==> c == '?'
  {
  }

  lemma {:induction false} CellsAreCaseless(tokens: seq<string>)
    ensures P.CellsOf(UpperEach(tokens)).Ok? == P.CellsOf(tokens).Ok?
    ensures P.CellsOf(tokens).Ok? ==> P.CellsOf(UpperEach(tokens)) == P.CellsOf(tokens)
    decreases |tokens|
  {
    hide P.CellOf;
    if tokens != [] {
      CellIsCaseless(tokens[0]);
      assert UpperEach(tokens)[1..] == UpperEach(tokens[1..]);
      CellsAreCaseless(tokens[1..]);
    }
  }

  /** Compiling is blind to letter case: a text is accepted in either case or in none, and compiles alike. */
  lemma CompilingIsCaseless(s: string)
    ensures P.CompiledFrom(UpperAll(s)).Ok? == P.CompiledFrom(s).Ok?
    ensures P.CompiledFrom(s).Ok? ==> P.CompiledFrom(UpperAll(s)) == P.CompiledFrom(s)
  {
    hide Words, P.CellsOf;
    WordsOfUpper(s);
    CellsAreCaseless(Words(s));
    AcceptedNeedsCells(s);
    AcceptedNeedsCells(UpperAll(s));
  }

  lemma AcceptedNeedsCells(s: string)
    ensures P.CompiledFrom(s) ==
      if Trimmed(s) == "" then Err(P.Empty)
      else match P.CellsOf(Words(s))
        case Err(token) => Err(P.InvalidToken(token))
        case Ok(cells) =>
          if cells == [] then Err(P.ZeroLength)
          else if |cells| > 1024 then Err(P.TooLong)
          else Ok(P.Encode(cells))
    ensures Words(s) != [] ==> Trimmed(s) != ""
  {
    if Words(s) != [] {
      P.WordsMeanNotBlank(s);
    }
  }

  // ---------------------------------------------------------------- lower-case spellings

  /** What a printed pattern is written with. */
  predicate IsPrintedChar(c: char) {
    c == ' ' || c == '?' || '0' <= c <= '9' || 'A' <= c <= 'F'
  }

  predicate PrintedChars(s: string) {
    forall i :: 0 <= i < |s| ==> IsPrintedChar(s[i])
  }

  lemma {:induction false} JoinedIsPrinted(cells: seq<P.Cell>)
    ensures PrintedChars(Joined(P.CellTexts(cells)))
    decreases |cells|
  {
    if |cells| > 1 {
      var n := |cells| - 1;
      assert P.CellTexts(cells)[..n] == P.CellTexts(cells[..n]);
      JoinedIsPrinted(cells[..n]);
    }
  }

  lemma UpperOfLower(s: string)
    requires PrintedChars(s)
    ensures UpperAll(LowerAll(s)) == s
  {
    forall i | 0 <= i < |s| ensures UpperAll(LowerAll(s))[i] == s[i] {
      assert IsPrintedChar(s[i]);
    }
  }

  lemma {:induction false} CleaningIsCaseless(s: string)
    ensures E.Cleaned(UpperAll(s)) == E.Cleaned(s)
    decreases |s|
  {
    if s != "" {
      var n := |s| - 1;
      SpaceIsCaseless(s[n]);
      assert UpperAll(s)[..n] == UpperAll(s[..n]);
      CleaningIsCaseless(s[..n]);
    }
  }

  /** The lower-case spelling of a printed pattern is read as that pattern by the compiler, by the text overload of
      the scan, and by the IDA-style parser. */
  lemma LowerCaseReadsAlike(p: P.Pattern)
    requires P.Compiled(p)
    ensures var s := LowerAll(P.Printed(p));
      && P.CompiledFrom(s) == Ok(p)
      && S.SignatureCells(Words(s)) == Some(P.Cells(p))
      && E.FromCleaned(E.Cleaned(s)) ==
           E.IdaPattern(p.bytes, seq(|p.mask|, i requires 0 <= i < |p.mask| => p.mask[i] == P.EXACT))
  {
    hide Words, P.CellsOf, E.Cleaned, E.FromCleaned, S.SignatureCells, P.Encode;
    var s := LowerAll(P.Printed(p));
    JoinedIsPrinted(P.Cells(p));
    UpperOfLower(P.Printed(p));
    P.CompileOfPrinted(p);
    CompilingIsCaseless(s);
    AcceptedNeedsCells(s);
    S.SameCells(Words(s));
    CellsOfEncoded(P.CellsOf(Words(s)).value);
    CleaningIsCaseless(s);
    E.IdaOfPrinted(p);
  }

  lemma CellsOfEncoded(cells: seq<P.Cell>)
    ensures P.Cells(P.Encode(cells)) == cells
  {
  }

  // ---------------------------------------------------------------- tokens and refusals

  /** Exactly the tokens the compiler accepts. */
  lemma TokensAccepted(token: string)
    ensures P.CellOf(token).Some? <==>
      token == "?" || token == "??"
      || (1 <= |token| <= 2 && forall i :: 0 <= i < |token| ==> Lower(token[i]) in DIGITS)
    ensures P.CellOf(token) == Some(P.Any) <==> token == "?" || token == "??"
  {
    forall i | 0 <= i < |token| ensures IsHexDigit(token[i]) <==> Lower(token[i]) in DIGITS {
      HexValueIsIndex(token[i]);
    }
  }

  /** A single digit stands for itself with a zero before it. */
  lemma SingleDigitIsPadded(c: char)
    requires c != '?'
    ensures P.CellOf([c]) == P.CellOf(['0', c])
  {
    if IsHexDigit(c) {
      P.HexNumberOfTwo([c]);
      P.HexNumberOfTwo(['0', c]);
    }
  }

  predicate AllAccepted(tokens: seq<string>) {
    forall i :: 0 <= i < |tokens| ==> P.CellOf(tokens[i]).Some?
  }

  lemma {:induction false} FirstRefused(tokens: seq<string>, i: nat)
    requires i <= |tokens| && AllAccepted(tokens[..i])
    ensures i == |tokens| ==> P.CellsOf(tokens).Ok?
    ensures i < |tokens| && P.CellOf(tokens[i]).None? ==> P.CellsOf(tokens) == Err(tokens[i])
    decreases i
  {
    hide P.CellOf;
    if i > 0 {
      assert tokens[..i][0] == tokens[0];
      forall j | 0 <= j < i - 1 ensures P.CellOf(tokens[1..][j]).Some? {
        assert tokens[..i][j + 1] == tokens[1..][j];
      }
      FirstRefused(tokens[1..], i - 1);
    }
  }

  lemma {:induction false} AcceptedTokens(tokens: seq<string>)
    ensures P.CellsOf(tokens).Ok? <==> AllAccepted(tokens)
    decreases |tokens|
  {
    hide P.CellOf;
    if tokens != [] {
      AcceptedTokens(tokens[1..]);
      assert tokens == [tokens[0]] + tokens[1..];
      assert AllAccepted(tokens) <==> P.CellOf(tokens[0]).Some? && AllAccepted(tokens[1..]);
    }
  }

  lemma {:induction false} TrimmedToNothing(s: string)
    ensures Trimmed(s) == "" <==> forall i :: 0 <= i < |s| ==> s[i] in BLANKS
    decreases |s|
  {
    if s != "" && s[0] in BLANKS {
      TrimmedToNothing(s[1..]);
      assert s == [s[0]] + s[1..];
    } else if s != "" {
      StrippedKeepsFront(s);
    }
  }

  lemma {:induction false} StrippedKeepsFront(s: string)
    requires s != "" && s[0] !in BLANKS
    ensures StripRight(s, BLANKS) != ""
    decreases |s|
  {
    if s[|s| - 1] in BLANKS {
      StrippedKeepsFront(s[..|s| - 1]);
    }
  }

  /** Exactly when and why a text is refused: it is blank, its first unreadable word, no word in other whitespace, or
      more than 1024 words. */
  lemma RefusedExactly(s: string)
    ensures P.CompiledFrom(s) == Err(P.Empty) <==> forall i :: 0 <= i < |s| ==> s[i] in " \t\n\r"
    ensures P.CompiledFrom(s).Ok? <==> AllAccepted(Words(s)) && 1 <= |Words(s)| <= 1024
    ensures P.CompiledFrom(s) == Err(P.TooLong) <==> AllAccepted(Words(s)) && |Words(s)| > 1024
    ensures P.CompiledFrom(s) == Err(P.ZeroLength) <==> Words(s) == [] && exists i :: 0 <= i < |s| && s[i] !in " \t\n\r"
    ensures forall i: nat :: i < |Words(s)| && AllAccepted(Words(s)[..i]) && P.CellOf(Words(s)[i]).None? ==>
      P.CompiledFrom(s) == Err(P.InvalidToken(Words(s)[i]))
  {
    hide Words, P.CellsOf, P.CellOf, Trimmed;
    TrimmedToNothing(s);
    AcceptedNeedsCells(s);
    AcceptedTokens(Words(s));
    BlanksAre();
    forall i: nat | i < |Words(s)| && AllAccepted(Words(s)[..i]) && P.CellOf(Words(s)[i]).None?
      ensures P.CompiledFrom(s) == Err(P.InvalidToken(Words(s)[i]))
    {
      FirstRefused(Words(s), i);
    }
  }

  lemma BlanksAre()
    ensures forall c: char :: c in BLANKS <==> c in " \t\n\r"
  {
  }

  // ---------------------------------------------------------------- tokens of the text overload

  /** A numeral as a token of the text overload: refused from 2^32 on, otherwise its last byte, negated by a sign. */
  lemma NumeralTokenReads(sign: string, prefix: string, digits: string, rest: string)
    requires sign in {"", "+", "-"} && prefix in {"", "0x", "0X"}
    requires digits != "" && AllHex(digits) && (rest == "" || !IsHexDigit(rest[0]))
    requires prefix == "" && digits == "0" && |rest| >= 2 && rest[0] in "xX" ==> !IsHexDigit(rest[1])
    ensures var n := HexNumber(digits);
      S.SignatureCell(sign + prefix + digits + rest) ==
        if n >= 0x1_0000_0000 then None else Some(P.Exact(Signed(sign == "-", n) % 0x100))
  {
    hide HexNumber, SignedHex, AllHex, IsHexDigit;
    StrtoulReads(sign, prefix, digits, rest);
    NotAMark(sign, prefix, digits, rest);
    NumberIsCell(sign + prefix + digits + rest, sign == "-", HexNumber(digits));
  }

  lemma NumberIsCell(token: string, negative: bool, n: nat)
    requires token != "" && token[0] !in "?*" && SignedHex(token) == Some((negative, n))
    ensures S.SignatureCell(token) == if n >= 0x1_0000_0000 then None else Some(P.Exact(Signed(negative, n) % 0x100))
  {
    hide SignedHex;
  }

  lemma NotAMark(sign: string, prefix: string, digits: string, rest: string)
    requires sign in {"", "+", "-"} && prefix in {"", "0x", "0X"} && digits != "" && AllHex(digits)
    ensures var s := sign + prefix + digits + rest; s != "" && s[0] !in "?*"
  {
    var s := sign + prefix + digits + rest;
    if sign != "" {
      assert s[0] == sign[0];
    } else if prefix != "" {
      assert s[0] == prefix[0];
    } else {
      assert s[0] == digits[0] && IsHexDigit(digits[0]);
    }
  }

  /** The wildcards of the text overload, and what it refuses. */
  lemma OtherTokensRead(token: string)
    ensures token in {"??", "?", "*"} ==> S.SignatureCell(token) == Some(P.Any)
    ensures token !in {"??", "?", "*"} ==> S.SignatureCell(token) != Some(P.Any)
    ensures token !in {"??", "?", "*"} && SignedHex(token) == None ==> S.SignatureCell(token) == None
  {
    hide SignedHex;
  }

  // ---------------------------------------------------------------- the validator

  /** The validator's grammar from the front: a NUL ends the text, spaces are free, and `??` and a lone `?` are each
      one mark. */
  lemma ValidatorReads(t: string)
    ensures V.Lex("") == V.Lex(['\0'] + t) == Some([])
    ensures V.Lex(" " + t) == V.Lex(t)
    ensures V.Lex("??" + t) == V.Cons(V.Any, V.Lex(t))
    ensures t == "" || t[0] != '?' ==> V.Lex("?" + t) == V.Cons(V.Any, V.Lex(t))
  {
    hide V.Lex, V.Cons, IsHexDigit;
    V.LexAtEnd("", 0);
    V.LexAtEnd(['\0'] + t, 0);
    LexFront(" " + t);
    LexFront("??" + t);
    LexFront("?" + t);
    assert (" " + t)[1..] == t && ("?" + t)[1..] == t && ("??" + t)[2..] == t;
  }

  /** Two digits are one mark, with or without a space behind them. */
  lemma ValidatorReadsDigits(hi: char, lo: char, t: string)
    requires IsHexDigit(hi) && IsHexDigit(lo)
    ensures V.Lex([hi, lo] + t) == V.Cons(V.Hex(hi, lo), V.Lex(t))
  {
    hide V.Lex, V.Cons, IsHexDigit;
    DigitIsNoMark(hi);
    LexFront([hi, lo] + t);
    assert ([hi, lo] + t)[2..] == t;
  }

  lemma LexFront(s: string)
    requires s != "" && s[0] != '\0'
    ensures s[0] == ' ' ==> V.Lex(s) == V.Lex(s[1..])
    ensures s[0] == '?' && |s| > 1 && s[1] == '?' ==> V.Lex(s) == V.Cons(V.Any, V.Lex(s[2..]))
    ensures s[0] == '?' && (|s| == 1 || s[1] != '?') ==> V.Lex(s) == V.Cons(V.Any, V.Lex(s[1..]))
    ensures IsHexDigit(s[0]) && |s| > 1 && IsHexDigit(s[1]) ==> V.Lex(s) == V.Cons(V.Hex(s[0], s[1]), V.Lex(s[2..]))
    ensures s[0] !in " ?" && !(IsHexDigit(s[0]) && |s| > 1 && IsHexDigit(s[1])) ==> V.Lex(s) == None
  {
    hide V.Lex;
    V.LexAt(s, 0);
    assert s[0..] == s;
  }

  lemma DigitIsNoMark(c: char)
    requires IsHexDigit(c)
    ensures c !in " ?\0"
  {
  }

  /** Everything else is refused: other characters, and a digit that is not followed by another. */
  lemma ValidatorRefuses(c: char, t: string)
    requires c !in " ?\0"
    ensures !IsHexDigit(c) || t == "" || !IsHexDigit(t[0]) ==> V.Lex([c] + t) == None
  {
    hide V.Lex;
    LexFront([c] + t);
    assert t != "" ==> ([c] + t)[1] == t[0];
  }

  lemma {:induction false} NormalTexts(marks: seq<V.Mark>)
    requires forall i :: 0 <= i < |marks| ==> V.ProperMark(marks[i])
    ensures Words(Joined(V.MarkTexts(marks))) == V.MarkTexts(marks)
    ensures forall i :: 0 <= i < |marks| ==>
      V.MarkTexts(marks)[i] == "?" || (|V.MarkTexts(marks)[i]| == 2 && AllHex(V.MarkTexts(marks)[i]))
  {
    forall i | 0 <= i < |marks| ensures IsWord(V.MarkTexts(marks)[i]) {
      V.LexOfMark(marks[i]);
    }
    WordsOfJoined(V.MarkTexts(marks));
  }

  /** The normal form of a valid text: as many words as the pattern has bytes, each a single `?` or two digits, with
      single spaces between them. */
  lemma NormalFormIs(s: string)
    requires V.Valid(s)
    ensures var normal := V.Normalized(s);
      && |Words(normal)| == V.PatternLength(s)
      && normal == Joined(Words(normal))
      && forall i :: 0 <= i < |Words(normal)| ==>
           Words(normal)[i] == "?" || (|Words(normal)[i]| == 2 && AllHex(Words(normal)[i]))
  {
    hide V.Lex, V.MarkTexts, Words, Joined;
    NormalTexts(V.Lex(s).value);
  }

  predicate NoDoubleMark(s: string) {
    forall i :: 0 < i < |s| ==> s[i - 1] != '?' || s[i] != '?'
  }

  lemma {:induction false} NoDoubleMarkJoined(marks: seq<V.Mark>)
    requires forall i :: 0 <= i < |marks| ==> V.ProperMark(marks[i])
    ensures NoDoubleMark(Joined(V.MarkTexts(marks)))
  {
    if marks != [] {
      var init, last := marks[..|marks| - 1], marks[|marks| - 1];
      assert marks == init + [last];
      NoDoubleMarkJoined(init);
      V.MarkTextsOfAppend(init, last);
    }
  }

  /** Nowhere in the normal form are two `?` adjacent. */
  lemma NormalHasNoDoubleMark(s: string)
    requires V.Valid(s)
    ensures NoDoubleMark(V.Normalized(s))
  {
    hide V.Lex, V.MarkTexts, Joined;
    NoDoubleMarkJoined(V.Lex(s).value);
  }

  // ---------------------------------------------------------------- the IDA-style parser

  /** Pairs other than `??` are read by the same rules, as a byte; what has no value is a wildcard. */
  lemma PairIsStrtoul(a: char, b: char)
    requires !(a == '?' && b == '?')
    ensures E.PairCell(a, b) ==
      match SignedHex([a, b])
      case None => (0, false)
      case Some((negative, n)) => (Signed(negative, n) % 0x100, true)
  {
    hide SignedHex, HexNumber;
    if a == '+' || a == '-' {
      assert [a, b][1..] == [b];
      SignedDigit(a, b);
    } else if IsHexDigit(a) {
      var n := if IsHexDigit(b) then 2 else 1;
      DigitsFirst(a, b);
      P.HexNumberOfTwo([a, b][..n]);
    } else {
      StrtoulNeedsDigits("", [a, b]);
      assert "" + [a, b] == [a, b];
    }
  }

  lemma SignedDigit(a: char, b: char)
    requires a == '+' || a == '-'
    ensures SignedHex([a, b]) == if IsHexDigit(b) then Some((a == '-', HexValue(b))) else None
  {
    assert [a, b] == [a] + [b] && [b] == [b] + "";
    if IsHexDigit(b) {
      UnprefixedReads([b]);
      HexLengthOfFront([b], "");
      assert [b][..1] == [b];
      P.HexNumberOfTwo([b]);
      SignIsSeparate([a], [b]);
    } else {
      StrtoulNeedsDigits([a], [b]);
    }
  }

  lemma DigitsFirst(a: char, b: char)
    requires IsHexDigit(a)
    ensures SignedHex([a, b]) == Some((false, HexNumber([a, b][..if IsHexDigit(b) then 2 else 1])))
  {
    hide HexNumber, SignedHex;
    var s := [a, b];
    UnprefixedReads(s);
    if IsHexDigit(b) {
      HexLengthOfFront(s, "");
      assert s + "" == s;
    } else {
      HexLengthOfFront([a], [b]);
      assert [a] + [b] == s;
    }
  }

  /** The parser ignores whitespace anywhere and letter case, and drops an odd last character. */
  lemma IdaIgnoresSpaceAndCase(s: string, c: char, t: string)
    requires c in SPACES
    ensures E.Cleaned(s + [c] + t) == E.Cleaned(s + t)
    ensures E.Cleaned(UpperAll(s)) == E.Cleaned(s)
  {
    SpacesAre(c);
    E.CleanedOfAppend(s + [c], t);
    E.CleanedOfAppend(s, [c]);
    E.CleanedOfAppend(s, t);
    CleanedSpace(c);
    CleaningIsCaseless(s);
    assert E.Cleaned(s) + "" == E.Cleaned(s);
  }

  lemma CleanedSpace(c: char)
    requires IsSpace(c)
    ensures E.Cleaned([c]) == ""
  {
    assert [c][..0] == "";
    assert E.Cleaned("") == "";
  }

  lemma OddCharacterIsDropped(t: string)
    requires |t| % 2 == 1
    ensures E.FromCleaned(t) == E.FromCleaned(t[..|t| - 1])
  {
  }

  /** Both scanners' notions of a match agree on a pattern and on what the IDA-style parser makes of its print. */
  lemma MatchersAgree(p: P.Pattern, data: seq<Byte>, i: int)
    requires P.Compiled(p)
    ensures E.MatchesAt(E.FromCleaned(E.Cleaned(P.Printed(p))), data, i) == P.MatchesAt(p, data, i)
  {
    hide E.FromCleaned, E.Cleaned;
    E.IdaOfPrinted(p);
  }

  /** A match, cell by cell: every byte the pattern fixes is there, and the data is long enough for all cells. */
  lemma MatchIsCellwise(cells: seq<P.Cell>, data: seq<Byte>, i: int)
    ensures P.MatchesAt(P.Encode(cells), data, i) <==>
      0 <= i && i + |cells| <= |data| &&
      forall j :: 0 <= j < |cells| ==> cells[j] == P.Any || cells[j] == P.Exact(data[i + j])
  {
    var p := P.Encode(cells);
    if P.MatchesAt(p, data, i) {
      forall j | 0 <= j < |cells| ensures cells[j] == P.Any || cells[j] == P.Exact(data[i + j]) {
        assert p.mask[j] == if cells[j].Exact? then P.EXACT else P.WILDCARD;
      }
    }
  }
}
