/** The pointer-chain file of src/pointer_chain.cpp: its printer and its line-driven parser. */
module PointerChainFile {
  import opened Common
  import opened Text

  datatype Chain = Chain(base: U64, offsets: seq<U64>)

  datatype Named = Named(name: string, chain: Chain)

  // ---------------------------------------------------------------- numerals

  /** Upper-case hexadecimal digits without leading zeros. */
  function HexText(n: nat): (s: string)
    ensures s != ""
  {
    if n < 16 then [HexDigit(n)] else HexText(n / 16) + [HexDigit(n % 16)]
  }

  function Zeros(k: nat): (s: string)
    ensures |s| == k
  {
    seq(k, _ => '0')
  }

  /** Filled with zeros on the left to the width. */
  function Padded(n: nat, width: nat): string {
    var s := HexText(n);
    if |s| < width then Zeros(width - |s|) + s else s
  }

  datatype ParseError = InvalidArgument | OutOfRange

  function SkipSpaces(s: string): string {
    if s != "" && IsSpace(s[0]) then SkipSpaces(s[1..]) else s
  }

  /** `std::stoull(s, nullptr, 16)`. */
  function Stoull(s: string): Result<U64, ParseError> {
    match SignedHex(SkipSpaces(s))
    case None => Err(InvalidArgument)
    case Some((negative, value)) =>
      if value >= TWO_64 then Err(OutOfRange)
      else if negative then Ok((TWO_64 - value) % TWO_64)
      else Ok(value)
  }

  // ---------------------------------------------------------------- text operations

  /** What repeated `std::getline` with a delimiter reads. */
  function Pieces(s: string, delimiter: char): (ps: seq<string>)
    ensures forall p :: p in ps ==> delimiter !in p
    decreases |s|
  {
    if s == "" then []
    else
      var n := FirstPiece(s, delimiter);
      if n == |s| then [s] else [s[..n]] + Pieces(s[n + 1..], delimiter)
  }

  function FirstPiece(s: string, delimiter: char): (n: nat)
    ensures n <= |s| && delimiter !in s[..n]
    ensures n < |s| ==> s[n] == delimiter
  {
    if s == "" || s[0] == delimiter then 0 else 1 + FirstPiece(s[1..], delimiter)
  }

  /** The first occurrence of a character at or after an index. */
  function Find(s: string, c: char, from: nat): (r: Option<nat>)
    ensures r.Some? ==> from <= r.value < |s| && s[r.value] == c && c !in s[from..r.value]
    ensures r.None? && from <= |s| ==> c !in s[from..]
    decreases |s| - from
  {
    if from >= |s| then None
    else if s[from] == c then Some(from)
    else Find(s, c, from + 1)
  }

  predicate OccursAt(s: string, part: string, i: nat) {
    i + |part| <= |s| && s[i..i + |part|] == part
  }

  predicate Contains(s: string, part: string) {
    exists i: nat :: i <= |s| && OccursAt(s, part, i)
  }

  // ---------------------------------------------------------------- printing

  function OffsetText(offset: U64): string {
    "\"0x" + Padded(offset, 2) + "\""
  }

  function OffsetsText(offsets: seq<U64>): string {
    if offsets == [] then ""
    else
      var front, last := offsets[..|offsets| - 1], OffsetText(offsets[|offsets| - 1]);
      if front == [] then last else OffsetsText(front) + ", " + last
  }

  function NameLine(name: string): string {
    "      \"name\": \"" + name + "\","
  }

  function BaseLine(base: U64): string {
    "      \"base\": \"0x" + Padded(base, 8) + "\","
  }

  function OffsetsLine(offsets: seq<U64>): string {
    "      \"offsets\": [" + OffsetsText(offsets) + "]"
  }

  function EntryText(e: Named): string {
    "    {\n" + NameLine(e.name) + "\n" + BaseLine(e.chain.base) + "\n" + OffsetsLine(e.chain.offsets) + "\n" + "    }"
  }

  function EntriesText(es: seq<Named>): string {
    if es == [] then ""
    else
      var front, last := es[..|es| - 1], EntryText(es[|es| - 1]);
      if front == [] then last else EntriesText(front) + ",\n" + last
  }

  /** The file for chains listed in this order. */
  function FileText(es: seq<Named>): string {
    "{\n" + "  \"chains\": [\n" + EntriesText(es) + "\n  ]\n" + "}\n"
  }

  // ---------------------------------------------------------------- parsing

  /** The chain under construction while lines are read. */
  datatype Draft = Draft(name: string, base: U64, offsets: seq<U64>)

  const EMPTY_DRAFT := Draft("", 0, [])

  datatype LoadState = LoadState(chains: map<string, Chain>, draft: Draft, error: Option<ParseError>)

  function TrimLine(line: string): string {
    StripRight(StripLeft(line, BLANKS), " \t\r\n,")
  }

  /** The text between the first two quotes after the first colon; to the end when there is one quote only, from the
      beginning when there is none. */
  function QuotedValue(line: string): (value: string)
    ensures '\"' !in value
    ensures forall c :: c in value ==> c in line
  {
    var colon := Find(line, ':', 0);
    var quote := Find(line, '\"', if colon.Some? then colon.value + 1 else 0);
    var start := if quote.Some? then quote.value + 1 else 0;
    var end := Find(line, '\"', start);
    if end.Some? then line[start..end.value] else line[start..]
  }

  function ParseBase(line: string): Result<U64, ParseError> {
    var value := QuotedValue(line);
    Stoull(if |value| >= 2 && value[0] == '0' && value[1] == 'x' then value[2..] else value)
  }

  function ParseOffset(token: string): Option<Result<U64, ParseError>> {
    var t := StripRight(StripLeft(token, BLANKS + "\""), BLANKS + "\"");
    if t == "" then None else Some(Stoull(if HasHexPrefix(t) then t[2..] else t))
  }

  /** The offsets read from the tokens, and the exception that ended reading, if any. */
  function ParseOffsets(tokens: seq<string>): (seq<U64>, Option<ParseError>) {
    if tokens == [] then ([], None)
    else
      var (before, error) := ParseOffsets(tokens[..|tokens| - 1]);
      if error.Some? then (before, error)
      else
        match ParseOffset(tokens[|tokens| - 1])
        case None => (before, None)
        case Some(Ok(offset)) => (before + [offset], None)
        case Some(Err(e)) => (before, Some(e))
  }

  /** The text between the brackets; to the end of the line when the closing one comes first. */
  function Bracketed(line: string): Option<string> {
    var start, end := Find(line, '[', 0), Find(line, ']', 0);
    if start.None? || end.None? then None
    else if end.value > start.value then Some(line[start.value + 1..end.value])
    else Some(line[start.value + 1..])
  }

  function ParseTrimmed(s: LoadState, line: string): LoadState {
    if Contains(line, "\"name\":") then s.(draft := s.draft.(name := QuotedValue(line)))
    else if Contains(line, "\"base\":") then
      match ParseBase(line)
      case Ok(base) => s.(draft := s.draft.(base := base))
      case Err(e) => s.(error := Some(e))
    else if Contains(line, "\"offsets\":") then
      match Bracketed(line)
      case None => s.(draft := s.draft.(offsets := []))
      case Some(inside) =>
        var (offsets, error) := ParseOffsets(Pieces(inside, ','));
        s.(draft := s.draft.(offsets := offsets), error := error)
    else if '}' in line && s.draft.name != "" then
      LoadState(s.chains[s.draft.name := Chain(s.draft.base, s.draft.offsets)], EMPTY_DRAFT, None)
    else s
  }

  /** One line, unless an exception has ended loading. */
  function ParseLine(s: LoadState, line: string): LoadState {
    if s.error.Some? then s else ParseTrimmed(s, TrimLine(line))
  }

  function ParseLines(s: LoadState, lines: seq<string>): LoadState
    decreases |lines|
  {
    if lines == [] then s else ParseLine(ParseLines(s, lines[..|lines| - 1]), lines[|lines| - 1])
  }

  function Load(chains: map<string, Chain>, text: string): LoadState {
    ParseLines(LoadState(chains, EMPTY_DRAFT, None), Pieces(text, '\n'))
  }

  /** The chains after adding these, in order. */
  function AddAll(chains: map<string, Chain>, es: seq<Named>): map<string, Chain>
    decreases |es|
  {
    if es == [] then chains
    else
      var last := es[|es| - 1];
      AddAll(chains, es[..|es| - 1])[last.name := last.chain]
  }

  /** The chains of a manager, each listed once. */
  ghost predicate Lists(es: seq<Named>, chains: map<string, Chain>) {
    && (forall i: nat :: i < |es| ==> es[i].name in chains && chains[es[i].name] == es[i].chain)
    && (forall i: nat, j: nat :: i < j < |es| ==> es[i].name != es[j].name)
    && AddAll(map[], es) == chains
  }

  /** The text is a file for these chains, in some order. */
  ghost predicate IsFileOf(text: string, chains: map<string, Chain>) {
    exists es :: Lists(es, chains) && text == FileText(es)
  }

  // ---------------------------------------------------------------- the manager

  lemma NothingListed()
    ensures Lists([], map[])
  {
  }

  lemma AddOneMore(chains: map<string, Chain>, es: seq<Named>, e: Named)
    ensures AddAll(chains, es + [e]) == AddAll(chains, es)[e.name := e.chain]
  {
    assert (es + [e])[..|es|] == es;
  }

  lemma ListsOneMore(es: seq<Named>, chains: map<string, Chain>, e: Named)
    requires Lists(es, chains) && e.name !in chains
    ensures Lists(es + [e], chains[e.name := e.chain])
  {
    hide AddAll;
    AddOneMore(map[], es, e);
  }

  class PointerChainManager {
    var chains: map<string, Chain>

    constructor ()
      ensures chains == map[]
    {
      chains := map[];
    }

    method AddChain(name: string, chain: Chain)
      modifies this
      ensures chains == old(chains)[name := chain]
    {
      chains := chains[name := chain];
    }

    static method WriteOffsets(offsets: seq<U64>) returns (text: string)
      ensures text == OffsetsText(offsets)
    {
      text := "";
      for i := 0 to |offsets|
        invariant text == OffsetsText(offsets[..i])
      {
        if i > 0 {
          text := text + ", ";
        }
        text := text + ("\"0x" + Padded(offsets[i], 2) + "\"");
        assert offsets[..i + 1][..i] == offsets[..i];
      }
      assert offsets[..|offsets|] == offsets;
    }

    static method WriteEntry(e: Named) returns (text: string)
      ensures text == EntryText(e)
    {
      var offsets := WriteOffsets(e.chain.offsets);
      text := "    {\n" + ("      \"name\": \"" + e.name + "\",") + "\n";
      text := text + ("      \"base\": \"0x" + Padded(e.chain.base, 8) + "\",") + "\n";
      text := text + ("      \"offsets\": [" + offsets + "]") + "\n" + "    }";
    }

    /** Writes the chains in whatever order the map is walked, if the file can be opened. */
    method SaveToFile(canOpen: bool) returns (file: Option<string>)
      ensures canOpen == file.Some?
      ensures canOpen ==> IsFileOf(file.value, chains)
    {
      hide Lists, EntryText;
      if !canOpen {
        return None;
      }
      var entries, first, rest := "", true, chains.Keys;
      ghost var listing: seq<Named> := [];
      NothingListed();
      assert chains - rest == map[];
      while rest != {}
        invariant rest <= chains.Keys && first == (listing == [])
        invariant entries == EntriesText(listing) && Lists(listing, chains - rest)
        decreases |rest|
      {
        var name :| name in rest;
        if !first {
          entries := entries + ",\n";
        }
        first := false;
        var e := Named(name, chains[name]);
        var text := WriteEntry(e);
        entries := entries + text;
        ListsOneMore(listing, chains - rest, e);
        assert chains - (rest - {name}) == (chains - rest)[name := chains[name]];
        assert (listing + [e])[..|listing|] == listing;
        listing := listing + [e];
        rest := rest - {name};
      }
      assert chains - {} == chains;
      return Some("{\n" + "  \"chains\": [\n" + entries + "\n  ]\n" + "}\n");
    }

    /** Reads a file, or none if it cannot be opened; returns false then, and passes on what parsing numbers throws. */
    method LoadFromFile(file: Option<string>) returns (ok: bool, error: Option<ParseError>)
      modifies this
      ensures file.None? ==> !ok && error.None? && chains == old(chains)
      ensures file.Some? ==>
        var loaded := Load(old(chains), file.value);
        chains == loaded.chains && error == loaded.error && ok == error.None?
    {
      hide TrimLine, QuotedValue, ParseBase, Bracketed, ParseOffsets, Contains, Pieces;
      if file.None? {
        return false, None;
      }
      var lines := Pieces(file.value, '\n');
      var currentName, currentBase, currentOffsets := "", 0, [];
      error := None;
      var i := 0;
      while i < |lines| && error.None?
        invariant 0 <= i <= |lines|
        invariant ParseLines(LoadState(old(chains), EMPTY_DRAFT, None), lines[..i]) ==
          LoadState(chains, Draft(currentName, currentBase, currentOffsets), error)
      {
        assert lines[..i + 1][..i] == lines[..i];
        var line := TrimLine(lines[i]);
        if Contains(line, "\"name\":") {
          currentName := QuotedValue(line);
        } else if Contains(line, "\"base\":") {
          match ParseBase(line) {
            case Ok(base) => currentBase := base;
            case Err(e) => error := Some(e);
          }
        } else if Contains(line, "\"offsets\":") {
          currentOffsets := [];
          match Bracketed(line) {
            case None =>
            case Some(inside) =>
              var parsed := ParseOffsets(Pieces(inside, ','));
              currentOffsets, error := parsed.0, parsed.1;
          }
        } else if '}' in line && currentName != "" {
          AddChain(currentName, Chain(currentBase, currentOffsets));
          currentName, currentBase, currentOffsets := "", 0, [];
        }
        i := i + 1;
      }
      ErrorStops(LoadState(old(chains), EMPTY_DRAFT, None), lines, i);
      return error.None?, error;
    }
  }

  /** Once an exception has ended loading, the rest of the lines changes nothing. */
  lemma {:induction false} ErrorStops(s: LoadState, lines: seq<string>, i: nat)
    requires i <= |lines| && (i == |lines| || ParseLines(s, lines[..i]).error.Some?)
    ensures ParseLines(s, lines) == ParseLines(s, lines[..i])
    decreases |lines|
  {
    if i < |lines| {
      var front := lines[..|lines| - 1];
      assert front[..i] == lines[..i];
      ErrorStops(s, front, i);
    } else {
      assert lines[..i] == lines;
    }
  }
}
