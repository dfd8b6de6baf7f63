/** The pre-compiled signature pattern: compiling a text, printing it back, and finding it in a buffer. */
module SignaturePattern {
  import opened Common
  import opened Text

  const EXACT: Byte := 0xFF
  const WILDCARD: Byte := 0x00
  const MAX_LENGTH := 1024

  /** Parallel byte and mask vectors; a mask byte is `EXACT` or `WILDCARD`. */
  datatype Pattern = Pattern(bytes: seq<Byte>, mask: seq<Byte>)

  /** One position of a pattern as the text shows it. */
  datatype Cell = Exact(byte: Byte) | Any

  datatype CompileError = Empty | InvalidToken(token: string) | ZeroLength | TooLong

  /** The patterns `Compile` can produce: nothing else can be constructed. */
  predicate Compiled(p: Pattern) {
    && 1 <= |p.bytes| <= MAX_LENGTH
    && |p.mask| == |p.bytes|
    && forall i :: 0 <= i < |p.bytes| ==> p.mask[i] == EXACT || (p.mask[i] == WILDCARD && p.bytes[i] == 0)
  }

  function Encode(cells: seq<Cell>): (p: Pattern)
    ensures |p.bytes| == |p.mask| == |cells|
  {
    Pattern(seq(|cells|, i requires 0 <= i < |cells| => if cells[i].Exact? then cells[i].byte else 0),
            seq(|cells|, i requires 0 <= i < |cells| => if cells[i].Exact? then EXACT else WILDCARD))
  }

  function Cells(p: Pattern): (cells: seq<Cell>)
    requires |p.mask| == |p.bytes|
    ensures |cells| == |p.bytes|
  {
    seq(|p.bytes|, i requires 0 <= i < |p.bytes| => if p.mask[i] == WILDCARD then Any else Exact(p.bytes[i]))
  }

  lemma EncodeOfCells(p: Pattern)
    requires Compiled(p)
    ensures Encode(Cells(p)) == p
  {
  }

  // ---------------------------------------------------------------- text to pattern

  /** The meaning of one token, if it has one. */
  function CellOf(token: string): Option<Cell> {
    if token == "?" || token == "??" then Some(Any)
    else if token == "" || |token| > 2 || !AllHex(token) then None
    else
      HexNumberOfTwo(token);
      Some(Exact(HexNumber(token)))
  }

  lemma HexNumberOfTwo(s: string)
    requires AllHex(s) && 1 <= |s| <= 2
    ensures HexNumber(s) < 0x100
    ensures |s| == 1 ==> HexNumber(s) == HexValue(s[0])
    ensures |s| == 2 ==> HexNumber(s) == 16 * HexValue(s[0]) + HexValue(s[1])
  {
    assert s[..|s| - 1] == if |s| == 1 then "" else [s[0]];
    assert HexNumber("") == 0;
    assert [s[0]][..0] == "";
    assert HexNumber([s[0]]) == 16 * HexNumber([s[0]][..0]) + HexValue(s[0]);
  }

  /** The cells of a token list, or the first token that has none. */
  function CellsOf(tokens: seq<string>): (r: Result<seq<Cell>, string>)
    ensures r.Ok? ==> |r.value| == |tokens|
  {
    if tokens == [] then Ok([])
    else match CellOf(tokens[0])
      case None => Err(tokens[0])
      case Some(cell) =>
        match CellsOf(tokens[1..])
        case Err(token) => Err(token)
        case Ok(cells) => Ok([cell] + cells)
  }

  /** What compiling a signature means. */
  function CompiledFrom(signature: string): Result<Pattern, CompileError> {
    if Trimmed(signature) == "" then Err(Empty)
    else match CellsOf(Words(signature))
      case Err(token) => Err(InvalidToken(token))
      case Ok(cells) =>
        if |cells| == 0 then Err(ZeroLength)
        else if |cells| > MAX_LENGTH then Err(TooLong)
        else Ok(Encode(cells))
  }

  /** Parses one token into a byte and a mask byte. */
  method ParseToken(token: string) returns (ok: bool, outByte: Byte, outMask: Byte)
    ensures ok == CellOf(token).Some?
    ensures ok ==> Encode([CellOf(token).value]) == Pattern([outByte], [outMask])
  {
    ok, outByte, outMask := false, 0, 0;
    if token == "" {
      return;
    }
    if token == "?" || token == "??" {
      return true, 0, WILDCARD;
    }
    if |token| > 2 {
      return;
    }
    var value := 0;
    for i := 0 to |token|
      invariant AllHex(token[..i]) && value == HexNumber(token[..i])
    {
      if !IsHexDigit(token[i]) {
        return;
      }
      assert token[..i + 1][..i] == token[..i];
      value := 16 * value + HexValue(token[i]);
    }
    assert token[..|token|] == token;
    HexNumberOfTwo(token);
    return true, value, EXACT;
  }

  /** `cells` followed by the outcome of parsing what comes after them. */
  function After(cells: seq<Cell>, r: Result<seq<Cell>, string>): Result<seq<Cell>, string> {
    match r
    case Err(token) => Err(token)
    case Ok(rest) => Ok(cells + rest)
  }

  lemma AfterByToken(cells: seq<Cell>, token: string, more: seq<string>)
    ensures CellOf(token).None? ==> After(cells, CellsOf([token] + more)) == Err(token)
    ensures CellOf(token).Some? ==>
      After(cells, CellsOf([token] + more)) == After(cells + [CellOf(token).value], CellsOf(more))
  {
    assert ([token] + more)[1..] == more;
    if CellOf(token).Some? && CellsOf(more).Ok? {
      var c, rest := CellOf(token).value, CellsOf(more).value;
      assert cells + ([c] + rest) == cells + [c] + rest;
    }
  }

  lemma EncodeOfAppend(cells: seq<Cell>, cell: Cell)
    ensures Encode(cells + [cell]).bytes == Encode(cells).bytes + Encode([cell]).bytes
    ensures Encode(cells + [cell]).mask == Encode(cells).mask + Encode([cell]).mask
  {
  }

  /** Compiles a signature by pulling tokens off a stream until one is invalid or the text ends. */
  method Compile(signature: string) returns (r: Result<Pattern, CompileError>)
    ensures r == CompiledFrom(signature)
  {
    var trimmed := Trimmed(signature);
    if trimmed == "" {
      return Err(Empty);
    }
    WordsOfTrimmed(signature);
    var bytes, mask := [], [];
    ghost var cells: seq<Cell> := [];
    var rest := trimmed;
    var next := NextWord(rest);
    assert CellsOf(Words(rest)) == After([], CellsOf(Words(rest))) by {
      if CellsOf(Words(rest)).Ok? {
        assert [] + CellsOf(Words(rest)).value == CellsOf(Words(rest)).value;
      }
    }
    while next.Some?
      invariant next == NextWord(rest)
      invariant CellsOf(Words(signature)) == After(cells, CellsOf(Words(rest)))
      invariant Pattern(bytes, mask) == Encode(cells)
      decreases |rest|
    {
      var token, after := next.value.0, next.value.1;
      AfterByToken(cells, token, Words(after));
      var ok, byte, maskByte := ParseToken(token);
      if !ok {
        return Err(InvalidToken(token));
      }
      EncodeOfAppend(cells, CellOf(token).value);
      bytes, mask := bytes + [byte], mask + [maskByte];
      cells := cells + [CellOf(token).value];
      rest := after;
      next := NextWord(rest);
    }
    assert cells + [] == cells;
    if |bytes| == 0 {
      return Err(ZeroLength);
    }
    if |bytes| > MAX_LENGTH {
      return Err(TooLong);
    }
    return Ok(Pattern(bytes, mask));
  }

  // ---------------------------------------------------------------- pattern to text

  function ByteText(b: Byte): (s: string)
    ensures |s| == 2 && AllHex(s) && IsWord(s)
  {
    [HexDigit(b / 16), HexDigit(b % 16)]
  }

  function CellText(cell: Cell): (s: string)
    ensures |s| == 2 && IsWord(s)
  {
    match cell
    case Any => "??"
    case Exact(b) => ByteText(b)
  }

  function CellTexts(cells: seq<Cell>): (ws: seq<string>)
    ensures |ws| == |cells|
    ensures forall i :: 0 <= i < |ws| ==> IsWord(ws[i])
  {
    seq(|cells|, i requires 0 <= i < |cells| => CellText(cells[i]))
  }

  /** The text of a pattern: two characters a byte, separated by single spaces. */
  function Printed(p: Pattern): string
    requires |p.mask| == |p.bytes|
  {
    if p.bytes == [] then "(empty pattern)" else Joined(CellTexts(Cells(p)))
  }

  method ToText(p: Pattern) returns (s: string)
    requires |p.mask| == |p.bytes|
    ensures s == Printed(p)
  {
    if |p.bytes| == 0 {
      return "(empty pattern)";
    }
    ghost var words := CellTexts(Cells(p));
    s := "";
    for i := 0 to |p.bytes|
      invariant s == Joined(words[..i])
    {
      assert words[..i + 1][..i] == words[..i];
      if i > 0 {
        s := s + " ";
      }
      if p.mask[i] == WILDCARD {
        s := s + "??";
      } else {
        s := s + ByteText(p.bytes[i]);
      }
    }
    assert words[..|p.bytes|] == words;
  }

  // ---------------------------------------------------------------- round trips

  lemma CellOfText(cell: Cell)
    ensures CellOf(CellText(cell)) == Some(cell)
  {
    match cell
    case Any =>
    case Exact(b) =>
      var s := ByteText(b);
      HexNumberOfTwo(s);
      assert s[0] != '?';
  }

  lemma {:induction false} CellsOfTexts(cells: seq<Cell>)
    ensures CellsOf(CellTexts(cells)) == Ok(cells)
  {
    if cells != [] {
      CellOfText(cells[0]);
      assert CellTexts(cells)[1..] == CellTexts(cells[1..]);
      CellsOfTexts(cells[1..]);
      assert [cells[0]] + cells[1..] == cells;
    }
  }

  /** Only well-formed patterns come out of the compiler. */
  lemma CompiledIsCompiled(signature: string)
    requires CompiledFrom(signature).Ok?
    ensures Compiled(CompiledFrom(signature).value)
  {
  }

  /** A text with a word in it is not all blanks. */
  lemma WordsMeanNotBlank(s: string)
    requires Words(s) != []
    ensures Trimmed(s) != ""
  {
    WordsOfTrimmed(s);
  }

  /** Compiling the printed form of a pattern gives the pattern back. */
  lemma CompileOfPrinted(p: Pattern)
    requires Compiled(p)
    ensures CompiledFrom(Printed(p)) == Ok(p)
  {
    var words := CellTexts(Cells(p));
    WordsOfJoined(words);
    CellsOfTexts(Cells(p));
    WordsMeanNotBlank(Printed(p));
    EncodeOfCells(p);
  }

  /** The printed form is a normal form: two accepted signatures print alike exactly when they compile alike,
      and printing is unchanged by compiling again. */
  lemma PrintedIsNormalForm(a: string, b: string)
    requires CompiledFrom(a).Ok? && CompiledFrom(b).Ok?
    ensures CompiledFrom(a) == CompiledFrom(b) <==> Printed(CompiledFrom(a).value) == Printed(CompiledFrom(b).value)
    ensures CompiledFrom(Printed(CompiledFrom(a).value)) == CompiledFrom(a)
  {
    CompiledIsCompiled(a);
    CompiledIsCompiled(b);
    CompileOfPrinted(CompiledFrom(a).value);
    CompileOfPrinted(CompiledFrom(b).value);
  }

  // ---------------------------------------------------------------- matching

  /** The pattern matches `data` at offset `i`. */
  predicate MatchesAt(p: Pattern, data: seq<Byte>, i: int)
    requires |p.mask| == |p.bytes|
  {
    && 0 <= i && i + |p.bytes| <= |data|
    && forall j :: 0 <= j < |p.bytes| && p.mask[j] == EXACT ==> data[i + j] == p.bytes[j]
  }

  /** The first offset from `i` on where the pattern matches. */
  function FirstMatch(p: Pattern, data: seq<Byte>, i: nat): Option<nat>
    requires |p.mask| == |p.bytes|
    decreases |data| - i
  {
    if i + |p.bytes| > |data| then None
    else if MatchesAt(p, data, i) then Some(i)
    else if i == |data| then None
    else FirstMatch(p, data, i + 1)
  }

  lemma {:induction false} FirstMatchIsFirst(p: Pattern, data: seq<Byte>, i: nat)
    requires |p.mask| == |p.bytes|
    ensures var r := FirstMatch(p, data, i);
      && (r.None? ==> forall k :: i <= k ==> !MatchesAt(p, data, k))
      && (r.Some? ==> i <= r.value && MatchesAt(p, data, r.value)
                      && forall k :: i <= k < r.value ==> !MatchesAt(p, data, k))
    decreases |data| - i
  {
    if i < |data| {
      FirstMatchIsFirst(p, data, i + 1);
    }
  }

  /** The address `FindInBuffer` reports: the base plus the least match offset, or 0 for none. */
  function MatchAddress(p: Pattern, data: seq<Byte>, baseAddress: U64): (a: U64)
    requires |p.mask| == |p.bytes|
  {
    if |p.bytes| == 0 then 0
    else match FirstMatch(p, data, 0)
      case None => 0
      case Some(i) => (baseAddress + i) % TWO_64
  }

  method FindInBuffer(p: Pattern, data: seq<Byte>, baseAddress: U64) returns (address: U64)
    requires |p.mask| == |p.bytes|
    ensures address == MatchAddress(p, data, baseAddress)
  {
    if |data| == 0 || |p.bytes| == 0 {
      return 0;
    }
    if |data| < |p.bytes| {
      return 0;
    }
    var searchEnd := |data| - |p.bytes| + 1;
    for i := 0 to searchEnd
      invariant FirstMatch(p, data, 0) == FirstMatch(p, data, i)
    {
      var match_ := true;
      var j := 0;
      while j < |p.bytes|
        invariant 0 <= j <= |p.bytes|
        invariant match_ ==> forall k :: 0 <= k < j && p.mask[k] == EXACT ==> data[i + k] == p.bytes[k]
        invariant !match_ ==> !MatchesAt(p, data, i)
      {
        if p.mask[j] == EXACT {
          if data[i + j] != p.bytes[j] {
            match_ := false;
            break;
          }
        }
        j := j + 1;
      }
      if match_ {
        assert MatchesAt(p, data, i);
        return (baseAddress + i) % TWO_64;
      }
    }
    return 0;
  }
}
