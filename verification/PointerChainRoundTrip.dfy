/** Loading a saved pointer-chain file gives back the chains, exactly when the names allow it. */
module PointerChainRoundTrip {
  import opened Common
  import opened Text
  import opened PointerChainFile

  // ---------------------------------------------------------------- numerals

  predicate IsUpperHex(c: char) {
    '0' <= c <= '9' || 'A' <= c <= 'F'
  }

  predicate AllUpperHex(s: string) {
    forall i :: 0 <= i < |s| ==> IsUpperHex(s[i])
  }

  /** Printing a number in hexadecimal and reading it back. */
  lemma {:induction false} HexTextReadsBack(n: nat)
    ensures AllUpperHex(HexText(n)) && AllHex(HexText(n)) && HexNumber(HexText(n)) == n
    decreases n
  {
    if n >= 16 {
      HexTextReadsBack(n / 16);
      var s := HexText(n);
      assert s[..|s| - 1] == HexText(n / 16);
    } else {
      assert HexNumber("") == 0;
      assert HexText(n)[..0] == "";
    }
  }

  lemma {:induction false} LeadingZeros(k: nat, s: string)
    requires AllHex(s)
    ensures AllHex(Zeros(k) + s) && HexNumber(Zeros(k) + s) == HexNumber(s)
    decreases |s|, k
  {
    var t := Zeros(k) + s;
    if s != "" {
      LeadingZeros(k, s[..|s| - 1]);
      assert t[..|t| - 1] == Zeros(k) + s[..|s| - 1];
    } else if k > 0 {
      LeadingZeros(k - 1, s);
      assert t[..|t| - 1] == Zeros(k - 1) + s;
    } else {
      assert t == s;
    }
  }

  lemma PaddedReadsBack(n: nat, width: nat)
    ensures var s := Padded(n, width);
      s != "" && AllUpperHex(s) && AllHex(s) && HexNumber(s) == n
  {
    hide HexText, HexNumber;
    HexTextReadsBack(n);
    var s := HexText(n);
    if |s| < width {
      LeadingZeros(width - |s|, s);
    }
  }

  lemma {:induction false} AllDigits(s: string)
    requires AllHex(s)
    ensures HexLength(s) == |s|
    decreases |s|
  {
    if s != "" {
      AllDigits(s[1..]);
    }
  }

  /** `stoull` reads a padded numeral. */
  lemma StoullOfPadded(n: U64, width: nat)
    ensures Stoull(Padded(n, width)) == Ok(n)
  {
    hide Padded, HexNumber, HexLength;
    PaddedReadsBack(n, width);
    var s := Padded(n, width);
    AllDigits(s);
    assert IsUpperHex(s[0]) && (|s| > 1 ==> IsUpperHex(s[1]));
    assert SkipSpaces(s) == s && !HasHexPrefix(s) && s[..|s|] == s;
  }

  // ---------------------------------------------------------------- stripping

  predicate AllIn(s: string, chars: string) {
    forall i :: 0 <= i < |s| ==> s[i] in chars
  }

  lemma {:induction false} StripLeftOf(before: string, s: string, chars: string)
    requires AllIn(before, chars) && s != "" && s[0] !in chars
    ensures StripLeft(before + s, chars) == s
    decreases |before|
  {
    if before == "" {
      assert before + s == s;
    } else {
      assert (before + s)[1..] == before[1..] + s;
      StripLeftOf(before[1..], s, chars);
    }
  }

  lemma {:induction false} StripRightOf(s: string, after: string, chars: string)
    requires AllIn(after, chars) && s != "" && s[|s| - 1] !in chars
    ensures StripRight(s + after, chars) == s
    decreases |after|
  {
    if after == "" {
      assert s + after == s;
    } else {
      var t := s + after;
      assert t[..|t| - 1] == s + after[..|after| - 1];
      StripRightOf(s, after[..|after| - 1], chars);
    }
  }

  /** Trimming a line that has a visible first and last character. */
  lemma TrimOf(before: string, s: string, after: string)
    requires AllIn(before, BLANKS) && AllIn(after, " \t\r\n,")
    requires s != "" && s[0] !in " \t\r\n," && s[|s| - 1] !in " \t\r\n,"
    ensures TrimLine(before + s + after) == s
  {
    hide StripLeft, StripRight;
    assert before + s + after == before + (s + after);
    assert (s + after)[0] == s[0];
    StripLeftOf(before, s + after, BLANKS);
    StripRightOf(s, after, " \t\r\n,");
  }

  // ---------------------------------------------------------------- splitting

  lemma {:induction false} FirstPieceOf(l: string, rest: string, delimiter: char)
    requires delimiter !in l
    ensures FirstPiece(l + [delimiter] + rest, delimiter) == |l|
    decreases |l|
  {
    var t := l + [delimiter] + rest;
    if l != "" {
      assert t[0] == l[0] && t[0] in l;
      assert t[1..] == l[1..] + [delimiter] + rest;
      FirstPieceOf(l[1..], rest, delimiter);
    }
  }

  lemma PiecesOfFirst(l: string, rest: string, delimiter: char)
    requires delimiter !in l
    ensures Pieces(l + [delimiter] + rest, delimiter) == [l] + Pieces(rest, delimiter)
  {
    FirstPieceOf(l, rest, delimiter);
    var t := l + [delimiter] + rest;
    assert t[..|l|] == l && t[|l| + 1..] == rest;
  }

  lemma {:induction false} FirstPieceOfAll(l: string, delimiter: char)
    requires delimiter !in l
    ensures FirstPiece(l, delimiter) == |l|
    decreases |l|
  {
    if l != "" {
      assert l[0] in l;
      FirstPieceOfAll(l[1..], delimiter);
    }
  }

  lemma PiecesOfLast(l: string, delimiter: char)
    requires l != "" && delimiter !in l
    ensures Pieces(l, delimiter) == [l]
  {
    FirstPieceOfAll(l, delimiter);
  }

  /** Splitting before and after a delimiter that ends a piece. */
  lemma {:induction false} PiecesOfAppend(x: string, delimiter: char, y: string)
    requires x != "" && x[|x| - 1] != delimiter
    ensures Pieces(x + [delimiter] + y, delimiter) == Pieces(x, delimiter) + Pieces(y, delimiter)
    decreases |x|
  {
    hide Pieces;
    var n := FirstPiece(x, delimiter);
    var l := x[..n];
    if n == |x| {
      assert x == l;
      PiecesOfFirst(x, y, delimiter);
      PiecesOfLast(x, delimiter);
    } else {
      var rest := x[n + 1..];
      assert n < |x| - 1;
      assert x == l + [delimiter] + rest && rest[|rest| - 1] == x[|x| - 1];
      assert x + [delimiter] + y == l + [delimiter] + (rest + [delimiter] + y);
      PiecesOfFirst(l, rest, delimiter);
      PiecesOfFirst(l, rest + [delimiter] + y, delimiter);
      PiecesOfAppend(rest, delimiter, y);
    }
  }

  /** Lines, each ended. */
  function Unlines(lines: seq<string>): string {
    if lines == [] then "" else lines[0] + "\n" + Unlines(lines[1..])
  }

  lemma {:induction false} UnlinesOfAppend(a: seq<string>, b: seq<string>)
    ensures Unlines(a + b) == Unlines(a) + Unlines(b)
    decreases |a|
  {
    if a == [] {
      assert a + b == b;
    } else {
      assert (a + b)[1..] == a[1..] + b;
      UnlinesOfAppend(a[1..], b);
    }
  }

  predicate OneLiners(lines: seq<string>) {
    forall i: nat :: i < |lines| ==> '\n' !in lines[i]
  }

  lemma NoPieces(delimiter: char)
    ensures Pieces("", delimiter) == []
  {
  }

  lemma {:induction false} LinesReadBack(lines: seq<string>)
    requires OneLiners(lines)
    ensures Pieces(Unlines(lines), '\n') == lines
    decreases |lines|
  {
    hide Pieces;
    if lines == [] {
      NoPieces('\n');
    } else {
      assert '\n' !in lines[0];
      PiecesOfFirst(lines[0], Unlines(lines[1..]), '\n');
      LinesReadBack(lines[1..]);
    }
  }

  // ---------------------------------------------------------------- offsets

  lemma OffsetTextIsPlain(offset: U64)
    ensures var s := OffsetText(offset);
      && |s| > 4 && s[0] == '\"' && s[|s| - 1] == '\"'
      && ',' !in s && ']' !in s && '[' !in s && 'n' !in s && 'b' !in s && '\n' !in s
  {
    hide Padded;
    PaddedReadsBack(offset, 2);
    var p := Padded(offset, 2);
    forall c | c in p ensures IsUpperHex(c) {
      var i :| 0 <= i < |p| && p[i] == c;
    }
  }

  /** A printed token, with or without the space after the comma, is parsed to its offset. */
  lemma TokenReadsBack(before: string, offset: U64)
    requires before == "" || before == " "
    ensures ParseOffset(before + OffsetText(offset)) == Some(Ok(offset))
  {
    hide Padded, StripLeft, StripRight, Stoull;
    PaddedReadsBack(offset, 2);
    StoullOfPadded(offset, 2);
    var p := Padded(offset, 2);
    var inner := "0x" + p;
    var cs := BLANKS + "\"";
    assert IsUpperHex(p[|p| - 1]);
    assert AllIn(before + "\"", cs) && AllIn("\"", cs);
    assert before + OffsetText(offset) == (before + "\"") + (inner + "\"");
    StripLeftOf(before + "\"", inner + "\"", cs);
    StripRightOf(inner, "\"", cs);
    assert inner[2..] == p;
  }

  function Token(offsets: seq<U64>, i: nat): string
    requires i < |offsets|
  {
    (if i == 0 then "" else " ") + OffsetText(offsets[i])
  }

  function Tokens(offsets: seq<U64>, n: nat): (ts: seq<string>)
    requires n <= |offsets|
    ensures |ts| == n
  {
    if n == 0 then [] else Tokens(offsets, n - 1) + [Token(offsets, n - 1)]
  }

  lemma {:induction false} TokensOfFront(offsets: seq<U64>, n: nat)
    requires n <= |offsets|
    ensures Tokens(offsets[..n], n) == Tokens(offsets, n)
    decreases n
  {
    if n > 0 {
      TokensOfFront(offsets[..n], n - 1);
      TokensOfFront(offsets, n - 1);
      assert offsets[..n][..n - 1] == offsets[..n - 1];
    }
  }

  lemma OffsetsTextOfMore(offsets: seq<U64>, n: nat)
    requires n >= 1 && |offsets| == n + 1
    ensures OffsetsText(offsets) == OffsetsText(offsets[..n]) + [','] + (" " + OffsetText(offsets[n]))
  {
    hide OffsetText;
    CommaAndSpace(OffsetsText(offsets[..n]), OffsetText(offsets[n]));
  }

  lemma CommaAndSpace(front: string, last: string)
    ensures front + ", " + last == front + [','] + (" " + last)
  {
    assert ", " == [','] + " ";
  }

  lemma TokensOfMore(offsets: seq<U64>, n: nat)
    requires n >= 1 && |offsets| == n + 1
    ensures Tokens(offsets, n + 1) == Tokens(offsets[..n], n) + [" " + OffsetText(offsets[n])]
  {
    hide OffsetText;
    TokensOfFront(offsets, n);
  }

  lemma OffsetsTextOfOne(offsets: seq<U64>)
    requires |offsets| == 1
    ensures OffsetsText(offsets) == OffsetText(offsets[0]) && Tokens(offsets, 1) == [OffsetText(offsets[0])]
  {
    hide OffsetText;
    assert "" + OffsetText(offsets[0]) == OffsetText(offsets[0]);
  }

  lemma SpacedOffsetIsOnePiece(offset: U64)
    ensures Pieces(" " + OffsetText(offset), ',') == [" " + OffsetText(offset)]
    ensures Pieces(OffsetText(offset), ',') == [OffsetText(offset)]
  {
    hide OffsetText, Pieces;
    OffsetTextIsPlain(offset);
    PiecesOfLast(" " + OffsetText(offset), ',');
    PiecesOfLast(OffsetText(offset), ',');
  }

  predicate EndsWithQuote(s: string) {
    s != "" && s[|s| - 1] == '\"'
  }

  lemma OffsetsEndWithQuote(offsets: seq<U64>)
    requires offsets != []
    ensures EndsWithQuote(OffsetsText(offsets))
  {
    hide OffsetText;
    OffsetTextIsPlain(offsets[|offsets| - 1]);
  }

  /** The printed list splits at its commas into the tokens. */
  lemma {:induction false} OffsetsSplit(offsets: seq<U64>)
    ensures Pieces(OffsetsText(offsets), ',') == Tokens(offsets, |offsets|)
    decreases |offsets|
  {
    hide OffsetText, OffsetsText, Tokens, Pieces;
    if |offsets| == 0 {
      NoOffsetsSplit(offsets);
    } else if |offsets| == 1 {
      OffsetsTextOfOne(offsets);
      SpacedOffsetIsOnePiece(offsets[0]);
    } else {
      var n := |offsets| - 1;
      var front := offsets[..n];
      OffsetsSplit(front);
      OffsetsTextOfMore(offsets, n);
      TokensOfMore(offsets, n);
      OffsetsEndWithQuote(front);
      PiecesOfAppend(OffsetsText(front), ',', " " + OffsetText(offsets[n]));
      SpacedOffsetIsOnePiece(offsets[n]);
    }
  }

  lemma NoOffsetsSplit(offsets: seq<U64>)
    requires offsets == []
    ensures Pieces(OffsetsText(offsets), ',') == Tokens(offsets, 0)
  {
  }

  lemma {:induction false} TokensReadBack(offsets: seq<U64>, n: nat)
    requires n <= |offsets|
    ensures ParseOffsets(Tokens(offsets, n)) == (offsets[..n], None)
    decreases n
  {
    hide ParseOffset, OffsetText;
    if n > 0 {
      TokensReadBack(offsets, n - 1);
      assert Tokens(offsets, n)[..n - 1] == Tokens(offsets, n - 1);
      TokenReadsBack(if n == 1 then "" else " ", offsets[n - 1]);
      assert offsets[..n] == offsets[..n - 1] + [offsets[n - 1]];
    }
  }

  // ---------------------------------------------------------------- lines

  /** A text that contains a part has the part's characters. */
  lemma PartIsInside(s: string, part: string, c: char)
    requires c in part
    ensures Contains(s, part) ==> c in s
  {
    if i: nat :| i <= |s| && OccursAt(s, part, i) {
      var k :| 0 <= k < |part| && part[k] == c;
      assert s[i..i + |part|][k] == s[i + k];
    }
  }

  /** The first occurrence is where it is, if there is none before. */
  lemma {:induction false} FindAt(s: string, c: char, from: nat, i: nat)
    requires from <= i < |s| && s[i] == c && c !in s[from..i]
    ensures Find(s, c, from) == Some(i)
    decreases i - from
  {
    if from < i {
      assert s[from..i][0] == s[from];
      assert s[from + 1..i] == s[from..i][1..];
      FindAt(s, c, from + 1, i);
    }
  }

  predicate IsGoodName(name: string) {
    name != "" && '\"' !in name && '\n' !in name
  }

  /** A line of a word and a value, both quoted. */
  function QuotedLine(word: string, value: string): string {
    "\"" + word + "\": \"" + value + "\""
  }

  lemma QuotedReadsBack(word: string, value: string)
    requires ':' !in word && '\"' !in value
    ensures QuotedValue(QuotedLine(word, value)) == value
  {
    hide Find;
    var line := QuotedLine(word, value);
    var n := |word| + 2;
    assert line[0..n] == "\"" + word + "\"";
    FindAt(line, ':', 0, n);
    FindAt(line, '\"', n + 1, n + 2);
    assert line[n + 3..n + 3 + |value|] == value;
    FindAt(line, '\"', n + 3, n + 3 + |value|);
  }

  lemma QuotedTrims(word: string, value: string)
    ensures TrimLine("      " + QuotedLine(word, value) + ",") == QuotedLine(word, value)
  {
    TrimOf("      ", QuotedLine(word, value), ",");
  }

  /** A printed name is read back, whatever else is in it, as long as it has no quote. */
  lemma NameReadsBack(name: string)
    requires '\"' !in name
    ensures var line := TrimLine(NameLine(name));
      Contains(line, "\"name\":") && QuotedValue(line) == name
  {
    hide TrimLine, QuotedValue, Contains;
    var line := QuotedLine("name", name);
    assert NameLine(name) == "      " + line + ",";
    QuotedTrims("name", name);
    QuotedReadsBack("name", name);
    ContainsAt(line, "\"name\":", 0);
  }

  lemma BaseIsBaseLine(base: U64)
    ensures var line := QuotedLine("base", "0x" + Padded(base, 8));
      && TrimLine(BaseLine(base)) == line && '\"' !in "0x" + Padded(base, 8)
      && !Contains(line, "\"name\":") && Contains(line, "\"base\":")
  {
    hide TrimLine, Padded, Contains;
    var value := "0x" + Padded(base, 8);
    var line := QuotedLine("base", value);
    PaddedReadsBack(base, 8);
    NoOtherLetters(Padded(base, 8));
    assert BaseLine(base) == "      " + line + ",";
    QuotedTrims("base", value);
    PartIsInside(line, "\"name\":", 'n');
    ContainsAt(line, "\"base\":", 0);
  }

  lemma BaseReadsBack(base: U64)
    ensures var line := TrimLine(BaseLine(base));
      !Contains(line, "\"name\":") && Contains(line, "\"base\":") && ParseBase(line) == Ok(base)
  {
    hide TrimLine, Padded, Stoull, Contains, QuotedValue;
    BaseIsBaseLine(base);
    var value := "0x" + Padded(base, 8);
    QuotedReadsBack("base", value);
    StoullOfPadded(base, 8);
    assert value[2..] == Padded(base, 8);
  }

  lemma ContainsAt(s: string, part: string, i: nat)
    requires OccursAt(s, part, i)
    ensures Contains(s, part)
  {
  }

  lemma NoOtherLetters(p: string)
    requires AllUpperHex(p)
    ensures 'n' !in p && '\"' !in p && '\n' !in p
  {
    forall c | c in p ensures IsUpperHex(c) {
      var i :| 0 <= i < |p| && p[i] == c;
    }
  }

  /** No printed offset list has a bracket, a line end, or a letter of the other keys. */
  lemma {:induction false} OffsetsTextIsPlain(offsets: seq<U64>)
    ensures var s := OffsetsText(offsets); ']' !in s && '[' !in s && 'n' !in s && 'b' !in s && '\n' !in s
    decreases |offsets|
  {
    hide OffsetText;
    if offsets != [] {
      OffsetTextIsPlain(offsets[|offsets| - 1]);
      OffsetsTextIsPlain(offsets[..|offsets| - 1]);
    }
  }

  function BracketedLine(inside: string): string {
    "\"offsets\": [" + inside + "]"
  }

  lemma BracketsReadBack(inside: string)
    requires ']' !in inside
    ensures Bracketed(BracketedLine(inside)) == Some(inside)
  {
    hide Find;
    var line := BracketedLine(inside);
    assert line[0..11] == "\"offsets\": ";
    FindAt(line, '[', 0, 11);
    assert line[0..12 + |inside|] == "\"offsets\": [" + inside;
    FindAt(line, ']', 0, 12 + |inside|);
    assert line[12..12 + |inside|] == inside;
  }

  lemma BracketsTrim(inside: string)
    ensures TrimLine("      " + BracketedLine(inside)) == BracketedLine(inside)
  {
    var line := BracketedLine(inside);
    TrimOf("      ", line, "");
    assert "      " + line + "" == "      " + line;
  }

  lemma OffsetsIsOffsetsLine(offsets: seq<U64>)
    ensures var line := BracketedLine(OffsetsText(offsets));
      && TrimLine(OffsetsLine(offsets)) == line
      && !Contains(line, "\"name\":") && !Contains(line, "\"base\":") && Contains(line, "\"offsets\":")
  {
    hide TrimLine, OffsetsText, Contains;
    var line := BracketedLine(OffsetsText(offsets));
    OffsetsTextIsPlain(offsets);
    BracketsTrim(OffsetsText(offsets));
    assert OffsetsLine(offsets) == "      " + line;
    PartIsInside(line, "\"name\":", 'n');
    PartIsInside(line, "\"base\":", 'b');
    ContainsAt(line, "\"offsets\":", 0);
  }

  lemma OffsetsReadBack(offsets: seq<U64>)
    ensures ParseOffsets(Pieces(OffsetsText(offsets), ',')) == (offsets, None)
  {
    hide OffsetsText, ParseOffsets, Pieces, Tokens;
    OffsetsSplit(offsets);
    TokensReadBack(offsets, |offsets|);
    assert offsets[..|offsets|] == offsets;
  }

  // ---------------------------------------------------------------- entries

  /** Lines that change nothing when no name is pending. */
  lemma QuietLine(s: LoadState, line: string)
    requires s.error.None? && s.draft.name == ""
    requires var t := TrimLine(line); 'm' !in t && 'b' !in t && 'f' !in t
    ensures ParseLine(s, line) == s
  {
    hide TrimLine, Contains;
    var t := TrimLine(line);
    PartIsInside(t, "\"name\":", 'm');
    PartIsInside(t, "\"base\":", 'b');
    PartIsInside(t, "\"offsets\":", 'f');
  }

  lemma NameLineStep(s: LoadState, name: string)
    requires s.error.None? && '\"' !in name
    ensures ParseLine(s, NameLine(name)) == s.(draft := s.draft.(name := name))
  {
    hide TrimLine, Contains, QuotedValue;
    NameReadsBack(name);
  }

  lemma BaseLineStep(s: LoadState, base: U64)
    requires s.error.None?
    ensures ParseLine(s, BaseLine(base)) == s.(draft := s.draft.(base := base))
  {
    hide TrimLine, Contains, ParseBase;
    BaseReadsBack(base);
  }

  lemma OffsetsLineStep(s: LoadState, offsets: seq<U64>)
    requires s.error.None?
    ensures ParseLine(s, OffsetsLine(offsets)) == s.(draft := s.draft.(offsets := offsets))
  {
    hide TrimLine, Contains, Bracketed, ParseOffsets, Pieces, OffsetsText, OffsetsLine, BracketedLine;
    OffsetsIsOffsetsLine(offsets);
    OffsetsTextIsPlain(offsets);
    BracketsReadBack(OffsetsText(offsets));
    OffsetsReadBack(offsets);
  }

  lemma EndLineStep(s: LoadState, tail: string)
    requires s.error.None? && s.draft.name != "" && (tail == "" || tail == ",")
    ensures ParseLine(s, "    }" + tail) ==
      LoadState(s.chains[s.draft.name := Chain(s.draft.base, s.draft.offsets)], EMPTY_DRAFT, None)
  {
    hide TrimLine, Contains;
    TrimOf("    ", "}", tail);
    assert "    }" + tail == "    " + "}" + tail;
    PartIsInside("}", "\"name\":", 'm');
    PartIsInside("}", "\"base\":", 'b');
    PartIsInside("}", "\"offsets\":", 'f');
  }

  function EntryLines(e: Named, tail: string): seq<string> {
    ["    {", NameLine(e.name), BaseLine(e.chain.base), OffsetsLine(e.chain.offsets), "    }" + tail]
  }

  lemma {:induction false} ParseLinesOfAppend(s: LoadState, a: seq<string>, b: seq<string>)
    ensures ParseLines(s, a + b) == ParseLines(ParseLines(s, a), b)
    decreases |b|
  {
    hide ParseLine;
    if b == [] {
      assert a + b == a;
    } else {
      assert (a + b)[..|a + b| - 1] == a + b[..|b| - 1];
      ParseLinesOfAppend(s, a, b[..|b| - 1]);
    }
  }

  lemma ParseOneLine(s: LoadState, line: string)
    ensures ParseLines(s, [line]) == ParseLine(s, line)
  {
    hide ParseLine;
    assert [line][..0] == [];
  }

  lemma ParseFirstLine(s: LoadState, line: string, rest: seq<string>)
    ensures ParseLines(s, [line] + rest) == ParseLines(ParseLine(s, line), rest)
  {
    hide ParseLine, ParseLines;
    ParseLinesOfAppend(s, [line], rest);
    ParseOneLine(s, line);
  }

  /** The five lines of an entry add its chain. */
  lemma EntryReadsBack(s: LoadState, e: Named, tail: string)
    requires s.error.None? && s.draft == EMPTY_DRAFT && IsGoodName(e.name) && (tail == "" || tail == ",")
    ensures ParseLines(s, EntryLines(e, tail)) == LoadState(s.chains[e.name := e.chain], EMPTY_DRAFT, None)
  {
    hide ParseLine, ParseLines, NameLine, BaseLine, OffsetsLine;
    var open, name, base := "    {", NameLine(e.name), BaseLine(e.chain.base);
    var offsets, end := OffsetsLine(e.chain.offsets), "    }" + tail;
    var lines := EntryLines(e, tail);
    assert lines == [open] + ([name] + ([base] + ([offsets] + [end])));
    TrimOf("    ", "{", "");
    assert open == "    " + "{" + "";
    QuietLine(s, open);
    ParseFirstLine(s, open, [name] + ([base] + ([offsets] + [end])));
    NameLineStep(s, e.name);
    var s1 := s.(draft := s.draft.(name := e.name));
    ParseFirstLine(s, name, [base] + ([offsets] + [end]));
    BaseLineStep(s1, e.chain.base);
    var s2 := s1.(draft := s1.draft.(base := e.chain.base));
    ParseFirstLine(s1, base, [offsets] + [end]);
    OffsetsLineStep(s2, e.chain.offsets);
    var s3 := s2.(draft := s2.draft.(offsets := e.chain.offsets));
    ParseFirstLine(s2, offsets, [end]);
    EndLineStep(s3, tail);
    ParseOneLine(s3, end);
  }

  /** The lines of all entries; the last of them ends in `tail`. */
  function EntriesLines(es: seq<Named>, tail: string): seq<string> {
    if es == [] then [] else EntriesLines(es[..|es| - 1], ",") + EntryLines(es[|es| - 1], tail)
  }

  predicate GoodNames(es: seq<Named>) {
    forall i: nat :: i < |es| ==> IsGoodName(es[i].name)
  }

  lemma {:induction false} EntriesReadBack(s: LoadState, es: seq<Named>, tail: string)
    requires s.error.None? && s.draft == EMPTY_DRAFT && GoodNames(es) && (tail == "" || tail == ",")
    ensures ParseLines(s, EntriesLines(es, tail)) == LoadState(AddAll(s.chains, es), EMPTY_DRAFT, None)
    decreases |es|
  {
    hide ParseLine, ParseLines, EntryLines;
    if es == [] {
      NoLines(s);
    } else {
      var front, last := es[..|es| - 1], es[|es| - 1];
      EntriesReadBack(s, front, ",");
      ParseLinesOfAppend(s, EntriesLines(front, ","), EntryLines(last, tail));
      EntryReadsBack(LoadState(AddAll(s.chains, front), EMPTY_DRAFT, None), last, tail);
    }
  }

  lemma NoLines(s: LoadState)
    ensures ParseLines(s, []) == s
  {
  }

  // ---------------------------------------------------------------- the file

  /** The lines of the file. */
  function FileLines(es: seq<Named>): seq<string> {
    ["{", "  \"chains\": ["] + (if es == [] then [""] else EntriesLines(es, "")) + ["  ]", "}"]
  }

  lemma UnlinesOfLine(lines: seq<string>, last: string)
    ensures Unlines(lines + [last]) == Unlines(lines) + (last + "\n")
  {
    UnlinesOfAppend(lines, [last]);
    assert [last][1..] == [];
    assert last + "\n" + "" == last + "\n";
  }

  lemma EntryAsLines(e: Named, tail: string)
    ensures Unlines(EntryLines(e, tail)) == EntryText(e) + tail + "\n"
  {
    hide NameLine, BaseLine, OffsetsLine, Unlines;
    var name, base, offsets := NameLine(e.name), BaseLine(e.chain.base), OffsetsLine(e.chain.offsets);
    UnlinesOfLine([], "    {");
    UnlinesOfLine(["    {"], name);
    UnlinesOfLine(["    {", name], base);
    UnlinesOfLine(["    {", name, base], offsets);
    UnlinesOfLine(["    {", name, base, offsets], "    }" + tail);
    NoLinesNoText();
    assert [] + ["    {"] == ["    {"] && ["    {"] + [name] == ["    {", name];
    assert ["    {", name] + [base] == ["    {", name, base];
    assert ["    {", name, base] + [offsets] == ["    {", name, base, offsets];
    assert ["    {", name, base, offsets] + ["    }" + tail] == EntryLines(e, tail);
    EntryRegroup(name, base, offsets, tail);
  }

  lemma NoLinesNoText()
    ensures Unlines([]) == ""
  {
  }

  lemma EntryRegroup(name: string, base: string, offsets: string, tail: string)
    ensures "" + ("    {" + "\n") + (name + "\n") + (base + "\n") + (offsets + "\n") + ("    }" + tail + "\n") ==
      "    {\n" + name + "\n" + base + "\n" + offsets + "\n" + "    }" + tail + "\n"
  {
    assert "    {" + "\n" == "    {\n";
  }

  lemma {:induction false} EntriesAsLines(es: seq<Named>, tail: string)
    requires es != []
    ensures Unlines(EntriesLines(es, tail)) == EntriesText(es) + tail + "\n"
    decreases |es|
  {
    hide EntryLines, EntryText, Unlines;
    var front, last := es[..|es| - 1], es[|es| - 1];
    EntryAsLines(last, tail);
    if front != [] {
      EntriesAsLines(front, ",");
      UnlinesOfAppend(EntriesLines(front, ","), EntryLines(last, tail));
      Regroup(EntriesText(front), EntryText(last), tail);
    } else {
      assert EntriesLines(front, ",") + EntryLines(last, tail) == EntryLines(last, tail);
    }
  }

  lemma Regroup(a: string, b: string, tail: string)
    ensures a + "," + "\n" + (b + tail + "\n") == a + ",\n" + b + tail + "\n"
  {
    assert ",\n" == "," + "\n";
  }

  lemma FileAsLines(es: seq<Named>)
    ensures FileText(es) == Unlines(FileLines(es))
  {
    hide EntriesLines, EntriesText;
    var head, foot := ["{", "  \"chains\": ["], ["  ]", "}"];
    var body := if es == [] then [""] else EntriesLines(es, "");
    UnlinesOfAppend(head + body, foot);
    UnlinesOfAppend(head, body);
    HeadAndFoot();
    if es == [] {
      BlankAsLine(es);
    } else {
      EntriesAsLines(es, "");
      assert EntriesText(es) + "" + "\n" == EntriesText(es) + "\n";
    }
    assert "\n  ]\n" == "\n" + "  ]\n";
  }

  lemma HeadAndFoot()
    ensures Unlines(["{", "  \"chains\": ["]) == "{\n" + "  \"chains\": [\n"
    ensures Unlines(["  ]", "}"]) == "  ]\n" + "}\n"
  {
    assert ["{", "  \"chains\": ["][1..] == ["  \"chains\": ["];
    assert ["  ]", "}"][1..] == ["}"];
  }

  lemma BlankAsLine(es: seq<Named>)
    requires es == []
    ensures Unlines([""]) == EntriesText(es) + "\n"
  {
    assert [""][1..] == [];
    assert "" + "\n" + Unlines([]) == "" + "\n";
  }

  /** No entry line has a line end, unless the name has one. */
  lemma EntryIsOneLiners(e: Named, tail: string)
    requires '\n' !in e.name && '\n' !in tail
    ensures OneLiners(EntryLines(e, tail))
  {
    hide Padded, OffsetsText;
    PaddedReadsBack(e.chain.base, 8);
    NoOtherLetters(Padded(e.chain.base, 8));
    OffsetsTextIsPlain(e.chain.offsets);
  }

  lemma {:induction false} EntriesAreOneLiners(es: seq<Named>, tail: string)
    requires GoodNames(es) && '\n' !in tail
    ensures OneLiners(EntriesLines(es, tail))
    decreases |es|
  {
    hide EntryLines;
    if es != [] {
      EntriesAreOneLiners(es[..|es| - 1], ",");
      EntryIsOneLiners(es[|es| - 1], tail);
    }
  }

  /** The lines around the entries change nothing. */
  lemma FrameLines(s: LoadState)
    requires s.error.None? && s.draft == EMPTY_DRAFT
    ensures ParseLine(s, "{") == ParseLine(s, "  \"chains\": [") == ParseLine(s, "") == s
    ensures ParseLine(s, "  ]") == ParseLine(s, "}") == s
  {
    hide ParseLine, TrimLine;
    TrimOf("", "{", "");
    assert "" + "{" + "" == "{";
    QuietLine(s, "{");
    TrimOf("  ", "\"chains\": [", "");
    assert "  " + "\"chains\": [" + "" == "  \"chains\": [";
    QuietLine(s, "  \"chains\": [");
    TrimOfBlank();
    QuietLine(s, "");
    TrimOf("  ", "]", "");
    assert "  " + "]" + "" == "  ]";
    QuietLine(s, "  ]");
    TrimOf("", "}", "");
    assert "" + "}" + "" == "}";
    QuietLine(s, "}");
  }

  lemma TrimOfBlank()
    ensures TrimLine("") == ""
  {
  }

  /** Parsing the lines of the file adds all chains. */
  lemma FileLinesReadBack(s: LoadState, es: seq<Named>)
    requires s.error.None? && s.draft == EMPTY_DRAFT && GoodNames(es)
    ensures ParseLines(s, FileLines(es)) == LoadState(AddAll(s.chains, es), EMPTY_DRAFT, None)
  {
    hide ParseLine, ParseLines, EntriesLines;
    var t := LoadState(AddAll(s.chains, es), EMPTY_DRAFT, None);
    var body := if es == [] then [""] else EntriesLines(es, "");
    var open, key, close, end := "{", "  \"chains\": [", "  ]", "}";
    FrameLines(s);
    FrameLines(t);
    assert FileLines(es) == [open] + ([key] + (body + ([close] + [end])));
    ParseFirstLine(s, open, [key] + (body + ([close] + [end])));
    ParseFirstLine(s, key, body + ([close] + [end]));
    ParseLinesOfAppend(s, body, [close] + [end]);
    if es == [] {
      ParseOneLine(s, "");
    } else {
      EntriesReadBack(s, es, "");
    }
    ParseFirstLine(t, close, [end]);
    ParseOneLine(t, end);
  }

  /** Loading a saved file adds the saved chains, if their names are not empty and have no quote and no line end. */
  lemma LoadAddsSaved(chains: map<string, Chain>, es: seq<Named>)
    requires GoodNames(es)
    ensures Load(chains, FileText(es)) == LoadState(AddAll(chains, es), EMPTY_DRAFT, None)
  {
    hide FileText, FileLines, ParseLines, Pieces;
    FileAsLines(es);
    FileIsOneLiners(es);
    LinesReadBack(FileLines(es));
    FileLinesReadBack(LoadState(chains, EMPTY_DRAFT, None), es);
  }

  lemma FileIsOneLiners(es: seq<Named>)
    requires GoodNames(es)
    ensures OneLiners(FileLines(es))
  {
    hide EntriesLines;
    EntriesAreOneLiners(es, "");
  }

  // ---------------------------------------------------------------- names that cannot be loaded

  lemma {:induction false} StripKeeps(s: string, chars: string, c: char)
    ensures c in StripLeft(s, chars) ==> c in s
    ensures c in StripRight(s, chars) ==> c in s
    decreases |s|
  {
    if s != "" {
      StripKeeps(s[1..], chars, c);
      StripKeeps(s[..|s| - 1], chars, c);
    }
  }

  lemma TrimKeeps(line: string, c: char)
    ensures c in TrimLine(line) ==> c in line
  {
    StripKeeps(line, BLANKS, c);
    StripKeeps(StripLeft(line, BLANKS), " \t\r\n,", c);
  }

  predicate CanBeRead(name: string) {
    '\"' !in name && '\n' !in name
  }

  ghost predicate OnlyGoodAdded(before: map<string, Chain>, after: map<string, Chain>) {
    forall name :: name in after ==> name in before || IsGoodName(name)
  }

  lemma ParseLineAddsGood(s: LoadState, line: string)
    requires CanBeRead(s.draft.name) && '\n' !in line
    ensures CanBeRead(ParseLine(s, line).draft.name) && OnlyGoodAdded(s.chains, ParseLine(s, line).chains)
  {
    hide TrimLine, Contains, ParseBase, Bracketed, ParseOffsets, Pieces, QuotedValue;
    TrimKeeps(line, '\n');
  }

  /** Whatever is loaded, a new name is never empty and never has a quote or a line end. */
  lemma {:induction false} LoadedNamesAreGood(s: LoadState, lines: seq<string>)
    requires CanBeRead(s.draft.name) && OneLiners(lines)
    ensures CanBeRead(ParseLines(s, lines).draft.name) && OnlyGoodAdded(s.chains, ParseLines(s, lines).chains)
    decreases |lines|
  {
    hide ParseLine, CanBeRead, IsGoodName;
    if lines != [] {
      var n := |lines| - 1;
      LoadedNamesAreGood(s, lines[..n]);
      assert '\n' !in lines[n];
      ParseLineAddsGood(ParseLines(s, lines[..n]), lines[n]);
    }
  }

  /** Whatever file saving a manager's chains writes, loading it into an empty manager gives the same chains back
      exactly when no name is empty or has a quote or a line end; bases and offsets may be any 64-bit words. */
  lemma RoundTripExactly(chains: map<string, Chain>, text: string)
    requires IsFileOf(text, chains)
    ensures var loaded := Load(map[], text);
      (loaded.error.None? && loaded.chains == chains) <==> forall name :: name in chains ==> IsGoodName(name)
  {
    hide FileText, ParseLines, IsGoodName, Pieces;
    LoadedNamesAreGood(LoadState(map[], EMPTY_DRAFT, None), Pieces(text, '\n'));
    var es :| Lists(es, chains) && text == FileText(es);
    if forall name :: name in chains ==> IsGoodName(name) {
      LoadAddsSaved(map[], es);
    }
  }
}
