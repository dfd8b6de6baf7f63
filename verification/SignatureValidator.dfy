/** Validation, length and normalisation of signature texts, and their agreement with the pattern compiler.
    A text is a C string: a NUL character, or the end of the Dafny string, terminates it. */
module SignatureValidator {
  import opened Common
  import opened Text
  import P = SignaturePattern

  /** One pattern byte as written: `?` or `??`, or two hexadecimal characters. */
  datatype Mark = Any | Hex(hi: char, lo: char)

  function At(s: string, i: nat): char {
    if i < |s| then s[i] else '\0'
  }

  function Cons(m: Mark, r: Option<seq<Mark>>): Option<seq<Mark>> {
    if r.None? then None else Some([m] + r.value)
  }

  /** The grammar the validator accepts: marks with any number of spaces (or none) between them. */
  function Lex(s: string): (r: Option<seq<Mark>>)
    ensures r.Some? ==> forall i :: 0 <= i < |r.value| ==> ProperMark(r.value[i])
    decreases |s|
  {
    if s == "" || s[0] == '\0' then Some([])
    else if s[0] == ' ' then Lex(s[1..])
    else if s[0] == '?' then
      if |s| > 1 && s[1] == '?' then Cons(Any, Lex(s[2..])) else Cons(Any, Lex(s[1..]))
    else if |s| > 1 && IsHexDigit(s[0]) && IsHexDigit(s[1]) then Cons(Hex(s[0], s[1]), Lex(s[2..]))
    else None
  }

  predicate ProperMark(m: Mark) {
    m.Hex? ==> IsHexDigit(m.hi) && IsHexDigit(m.lo)
  }

  predicate Valid(s: string) {
    Lex(s).Some? && Lex(s).value != []
  }

  function MarkText(m: Mark): string {
    match m
    case Any => "?"
    case Hex(hi, lo) => [hi, lo]
  }

  function MarkTexts(marks: seq<Mark>): (ws: seq<string>)
    ensures |ws| == |marks|
  {
    seq(|marks|, i requires 0 <= i < |marks| => MarkText(marks[i]))
  }

  /** The pattern length in bytes; 0 for a text that is not valid. */
  function PatternLength(s: string): nat {
    if Valid(s) then |Lex(s).value| else 0
  }

  /** Every mark in its shortest form, separated by single spaces; empty for a text that is not valid. */
  function Normalized(s: string): string {
    if Valid(s) then Joined(MarkTexts(Lex(s).value)) else ""
  }

  // ---------------------------------------------------------------- the three loops

  lemma PrefixedByMark(done: seq<Mark>, m: Mark, r: Option<seq<Mark>>)
    ensures Prefixed(done, Cons(m, r)) == Prefixed(done + [m], r)
  {
    if r.Some? {
      assert done + ([m] + r.value) == done + [m] + r.value;
    }
  }

  /** One unfolding of the grammar at a position, as the scanning loops see it. */
  lemma LexAt(s: string, i: nat)
    requires i < |s| && s[i] != '\0'
    ensures s[i] == ' ' ==> Lex(s[i..]) == Lex(s[i + 1..])
    ensures s[i] == '?' && At(s, i + 1) == '?' ==> i + 2 <= |s| && Lex(s[i..]) == Cons(Any, Lex(s[i + 2..]))
    ensures s[i] == '?' && At(s, i + 1) != '?' ==> Lex(s[i..]) == Cons(Any, Lex(s[i + 1..]))
    ensures IsHexDigit(s[i]) && IsHexDigit(At(s, i + 1)) ==>
      i + 2 <= |s| && Lex(s[i..]) == Cons(Hex(s[i], s[i + 1]), Lex(s[i + 2..]))
    ensures s[i] != ' ' && s[i] != '?' && !(IsHexDigit(s[i]) && IsHexDigit(At(s, i + 1))) ==> Lex(s[i..]) == None
  {
    var t := s[i..];
    assert t[1..] == s[i + 1..];
    if i + 1 < |s| {
      assert t[1] == s[i + 1] && t[2..] == s[i + 2..];
    }
  }

  lemma LexAtEnd(s: string, i: nat)
    requires i <= |s| && At(s, i) == '\0'
    ensures Lex(s[i..]) == Some([])
  {
  }

  method SkipSpaces(s: string, start: nat) returns (ptr: nat)
    requires start <= |s|
    ensures start <= ptr <= |s| && At(s, ptr) != ' '
    ensures Lex(s[ptr..]) == Lex(s[start..])
  {
    ptr := start;
    while At(s, ptr) == ' '
      invariant start <= ptr <= |s|
      invariant Lex(s[ptr..]) == Lex(s[start..])
      decreases |s| - ptr
    {
      LexAt(s, ptr);
      ptr := ptr + 1;
    }
  }

  method SkipOneSpace(s: string, start: nat) returns (ptr: nat)
    requires start <= |s|
    ensures start <= ptr <= |s|
    ensures Lex(s[ptr..]) == Lex(s[start..])
  {
    ptr := start;
    if At(s, ptr) == ' ' {
      LexAt(s, ptr);
      ptr := ptr + 1;
    }
  }

  method IsValidHexPattern(s: string) returns (valid: bool)
    ensures valid == Valid(s)
  {
    hide Lex;
    if At(s, 0) == '\0' {
      LexAtEnd(s, 0);
      assert s[0..] == s;
      return false;
    }
    var ptr, found := 0, false;
    ghost var done: seq<Mark> := [];
    PrefixedByNothing(Lex(s));
    assert s[0..] == s;
    while At(s, ptr) != '\0'
      invariant ptr <= |s| && (found <==> done != [])
      invariant Lex(s) == Prefixed(done, Lex(s[ptr..]))
      decreases |s| - ptr
    {
      ptr := SkipSpaces(s, ptr);
      if At(s, ptr) == '\0' {
        break;
      }
      LexAt(s, ptr);
      if s[ptr] == '?' {
        found := true;
        ptr := ptr + 1;
        if At(s, ptr) == '?' {
          ptr := ptr + 1;
        }
        PrefixedByMark(done, Any, Lex(s[ptr..]));
        done := done + [Any];
        ptr := SkipOneSpace(s, ptr);
        continue;
      }
      if !IsHexDigit(s[ptr]) {
        return false;
      }
      if !IsHexDigit(At(s, ptr + 1)) {
        return false;
      }
      PrefixedByMark(done, Hex(s[ptr], s[ptr + 1]), Lex(s[ptr + 2..]));
      found, done := true, done + [Hex(s[ptr], s[ptr + 1])];
      ptr := ptr + 2;
      ptr := SkipOneSpace(s, ptr);
    }
    LexAtEnd(s, ptr);
    assert done + [] == done;
    return found;
  }

  method GetPatternLength(s: string) returns (length: nat)
    ensures length == PatternLength(s)
  {
    hide Lex;
    var valid := IsValidHexPattern(s);
    if !valid {
      return 0;
    }
    var ptr := 0;
    length := 0;
    ghost var done: seq<Mark> := [];
    PrefixedByNothing(Lex(s));
    assert s[0..] == s;
    while At(s, ptr) != '\0'
      invariant ptr <= |s| && length == |done|
      invariant Lex(s) == Prefixed(done, Lex(s[ptr..]))
      decreases |s| - ptr
    {
      ptr := SkipSpaces(s, ptr);
      if At(s, ptr) == '\0' {
        break;
      }
      LexAt(s, ptr);
      if s[ptr] == '?' {
        var next := if At(s, ptr + 1) == '?' then ptr + 2 else ptr + 1;
        PrefixedByMark(done, Any, Lex(s[next..]));
        length, done := length + 1, done + [Any];
        ptr := SkipOneSpace(s, next);
      } else if IsHexDigit(s[ptr]) {
        PrefixedByMark(done, Hex(s[ptr], s[ptr + 1]), Lex(s[ptr + 2..]));
        length, done := length + 1, done + [Hex(s[ptr], s[ptr + 1])];
        ptr := SkipOneSpace(s, ptr + 2);
      }
    }
    LexAtEnd(s, ptr);
    assert done + [] == done;
  }

  lemma MarkTextsOfAppend(marks: seq<Mark>, m: Mark)
    ensures Joined(MarkTexts(marks + [m])) ==
            if marks == [] then MarkText(m) else Joined(MarkTexts(marks)) + " " + MarkText(m)
  {
    assert MarkTexts(marks + [m]) == MarkTexts(marks) + [MarkText(m)];
    assert MarkTexts(marks + [m])[..|marks|] == MarkTexts(marks);
  }

  method NormalizePattern(s: string) returns (text: string)
    ensures text == Normalized(s)
  {
    hide Lex;
    var valid := IsValidHexPattern(s);
    if !valid {
      return "";
    }
    var ptr, first := 0, true;
    text := "";
    ghost var done: seq<Mark> := [];
    PrefixedByNothing(Lex(s));
    assert s[0..] == s;
    while At(s, ptr) != '\0'
      invariant ptr <= |s| && (first <==> done == [])
      invariant text == Joined(MarkTexts(done))
      invariant Lex(s) == Prefixed(done, Lex(s[ptr..]))
      decreases |s| - ptr
    {
      ptr := SkipSpaces(s, ptr);
      if At(s, ptr) == '\0' {
        break;
      }
      LexAt(s, ptr);
      if !first {
        text := text + " ";
      }
      if s[ptr] == '?' {
        var next := if At(s, ptr + 1) == '?' then ptr + 2 else ptr + 1;
        PrefixedByMark(done, Any, Lex(s[next..]));
        MarkTextsOfAppend(done, Any);
        text, done := text + "?", done + [Any];
        ptr := next;
      } else if IsHexDigit(s[ptr]) {
        PrefixedByMark(done, Hex(s[ptr], s[ptr + 1]), Lex(s[ptr + 2..]));
        MarkTextsOfAppend(done, Hex(s[ptr], s[ptr + 1]));
        text := text + [s[ptr]];
        text := text + [s[ptr + 1]];
        done := done + [Hex(s[ptr], s[ptr + 1])];
        ptr := ptr + 2;
      }
      first := false;
      ptr := SkipOneSpace(s, ptr);
    }
    LexAtEnd(s, ptr);
    assert done + [] == done;
  }

  // ---------------------------------------------------------------- agreement

  lemma PrefixedByCons(m: Mark, done: seq<Mark>, r: Option<seq<Mark>>)
    ensures Prefixed([m] + done, r) == Cons(m, Prefixed(done, r))
  {
    if r.Some? {
      assert [m] + (done + r.value) == [m] + done + r.value;
    }
  }

  lemma {:induction false} LexOfAppend(s: string, t: string)
    requires Lex(s).Some? && '\0' !in s
    ensures Lex(s + " " + t) == Prefixed(Lex(s).value, Lex(t))
    decreases |s|
  {
    var u := s + " " + t;
    if s == "" {
      assert u[1..] == t;
      PrefixedByNothing(Lex(t));
    } else {
      var n := if s[0] == ' ' || (s[0] == '?' && At(s, 1) != '?') then 1 else 2;
      LexAt(s, 0);
      LexAt(u, 0);
      assert s[0..] == s && u[0..] == u;
      assert At(u, 1) == if |s| > 1 then s[1] else ' ';
      assert u[n..] == s[n..] + " " + t;
      LexOfAppend(s[n..], t);
      if s[0] != ' ' {
        PrefixedByCons(Lex(s).value[0], Lex(s[n..]).value, Lex(t));
      }
    }
  }

  lemma LexOfMark(m: Mark)
    requires ProperMark(m)
    ensures Lex(MarkText(m)) == Some([m]) && IsWord(MarkText(m)) && '\0' !in MarkText(m)
  {
    var s := MarkText(m);
    assert s[|s|..] == "";
    assert [m] + [] == [m];
  }

  lemma {:induction false} LexOfNormal(marks: seq<Mark>)
    requires forall i :: 0 <= i < |marks| ==> ProperMark(marks[i])
    ensures Lex(Joined(MarkTexts(marks))) == Some(marks) && '\0' !in Joined(MarkTexts(marks))
  {
    if marks != [] {
      var init, last := marks[..|marks| - 1], marks[|marks| - 1];
      assert marks == init + [last];
      LexOfNormal(init);
      LexOfMark(last);
      MarkTextsOfAppend(init, last);
      LexOfAppend(Joined(MarkTexts(init)), MarkText(last));
      assert init + [last] == marks;
    }
  }

  /** Normalising gives a valid text, changes nothing the second time, and keeps the length. */
  lemma NormalizedIsNormal(s: string)
    requires Valid(s)
    ensures Valid(Normalized(s)) && Lex(Normalized(s)) == Lex(s)
    ensures Normalized(Normalized(s)) == Normalized(s)
    ensures PatternLength(Normalized(s)) == PatternLength(s)
  {
    LexOfNormal(Lex(s).value);
  }

  /** What a mark means to the compiler. */
  function CellOfMark(m: Mark): P.Cell
    requires ProperMark(m)
  {
    match m
    case Any => P.Cell.Any
    case Hex(hi, lo) => P.Exact(16 * HexValue(hi) + HexValue(lo))
  }

  function CellsOfMarks(marks: seq<Mark>): (cells: seq<P.Cell>)
    requires forall i :: 0 <= i < |marks| ==> ProperMark(marks[i])
    ensures |cells| == |marks|
  {
    seq(|marks|, i requires 0 <= i < |marks| => CellOfMark(marks[i]))
  }

  lemma CellOfMarkText(m: Mark)
    requires ProperMark(m)
    ensures P.CellOf(MarkText(m)) == Some(CellOfMark(m))
  {
    if m.Hex? {
      P.HexNumberOfTwo(MarkText(m));
      assert MarkText(m)[0] != '?';
    }
  }

  lemma {:induction false} CellsOfMarkTexts(marks: seq<Mark>)
    requires forall i :: 0 <= i < |marks| ==> ProperMark(marks[i])
    ensures P.CellsOf(MarkTexts(marks)) == Ok(CellsOfMarks(marks))
  {
    if marks != [] {
      CellOfMarkText(marks[0]);
      assert MarkTexts(marks)[1..] == MarkTexts(marks[1..]);
      CellsOfMarkTexts(marks[1..]);
      assert [CellOfMark(marks[0])] + CellsOfMarks(marks[1..]) == CellsOfMarks(marks);
    }
  }

  /** The normal form of a valid text compiles, to exactly one byte for each unit of its length, unless the
      compiler's length limit is exceeded. */
  lemma NormalizedCompiles(s: string)
    requires Valid(s)
    ensures PatternLength(s) <= P.MAX_LENGTH ==>
      P.CompiledFrom(Normalized(s)) == Ok(P.Encode(CellsOfMarks(Lex(s).value)))
      && |P.CompiledFrom(Normalized(s)).value.bytes| == PatternLength(s)
    ensures PatternLength(s) > P.MAX_LENGTH ==> P.CompiledFrom(Normalized(s)) == Err(P.TooLong)
  {
    var marks := Lex(s).value;
    forall i | 0 <= i < |marks| ensures IsWord(MarkTexts(marks)[i]) {
      LexOfMark(marks[i]);
    }
    WordsOfJoined(MarkTexts(marks));
    P.WordsMeanNotBlank(Normalized(s));
    CellsOfMarkTexts(marks);
  }

  /** A word at the front of a text both accept is one mark, read alike by validator and compiler. */
  lemma FrontWordIsMark(s: string) returns (m: Mark)
    requires s != "" && !IsSpace(s[0]) && Lex(s).Some? && P.CellOf(s[..WordLength(s)]).Some?
    ensures ProperMark(m) && P.CellOf(s[..WordLength(s)]) == Some(CellOfMark(m))
    ensures Lex(s) == Cons(m, Lex(s[WordLength(s)..]))
  {
    var n := WordLength(s);
    var w := s[..n];
    assert w[0] == s[0] && (n == 2 ==> w[1] == s[1]);
    LexAt(s, 0);
    assert s[0..] == s;
    if s[0] == '?' {
      m := Any;
      assert n == 1 ==> At(s, 1) != '?';
    } else {
      m := Hex(s[0], At(s, 1));
      P.HexNumberOfTwo(w);
      assert n == 2;
    }
  }

  /** On a text both accept, the compiler reads the same marks as the validator. */
  lemma {:induction false} WordsReadAsMarks(s: string)
    requires Lex(s).Some? && P.CellsOf(Words(s)).Ok?
    ensures P.CellsOf(Words(s)) == Ok(CellsOfMarks(Lex(s).value))
    decreases |s|
  {
    hide P.CellOf, WordLength, Lex;
    assert s[0..] == s;
    if s == "" {
      LexAtEnd(s, 0);
    } else if s[0] == ' ' {
      LexAt(s, 0);
      WordsReadAsMarks(s[1..]);
    } else if IsSpace(s[0]) {
      LexAt(s, 0);
      assert false;
    } else {
      var n := WordLength(s);
      assert Words(s)[1..] == Words(s[n..]);
      var m := FrontWordIsMark(s);
      WordsReadAsMarks(s[n..]);
      assert [CellOfMark(m)] + CellsOfMarks(Lex(s[n..]).value) == CellsOfMarks(Lex(s).value);
    }
  }

  /** Where the compiler also accepts a valid text as written, text and normal form compile to the same pattern. */
  lemma CompilersAgree(s: string)
    requires Valid(s) && P.CompiledFrom(s).Ok?
    ensures P.CompiledFrom(Normalized(s)) == P.CompiledFrom(s)
  {
    WordsReadAsMarks(s);
    NormalizedCompiles(s);
  }
}
