/** Character classes, whitespace-separated words and hexadecimal numerals, as the C++ library treats
    plain ASCII text. */
module Text {
  import opened Common

  predicate IsSpace(c: char) {
    c == ' ' || 9 <= c as int <= 13
  }

  function Upper(c: char): char {
    if 'a' <= c <= 'z' then (c as int - 32) as char else c
  }

  function Lower(c: char): char {
    if 'A' <= c <= 'Z' then (c as int + 32) as char else c
  }

  predicate IsHexDigit(c: char) {
    '0' <= c <= '9' || 'A' <= c <= 'F' || 'a' <= c <= 'f'
  }

  function HexValue(c: char): (v: int)
    requires IsHexDigit(c)
    ensures 0 <= v < 16
  {
    if '0' <= c <= '9' then c as int - '0' as int
    else if 'A' <= c <= 'F' then c as int - 'A' as int + 10
    else c as int - 'a' as int + 10
  }

  /** The upper-case digit for `v`; a right inverse of `HexValue`. */
  function HexDigit(v: int): (c: char)
    requires 0 <= v < 16
    ensures IsHexDigit(c) && HexValue(c) == v && !IsSpace(c) && !('a' <= c <= 'z')
  {
    if v < 10 then ('0' as int + v) as char else ('A' as int + (v - 10)) as char
  }

  predicate AllHex(s: string) {
    forall i :: 0 <= i < |s| ==> IsHexDigit(s[i])
  }

  /** The number written by a string of hexadecimal digits, most significant first. */
  function HexNumber(s: string): (n: nat)
    requires AllHex(s)
  {
    if s == "" then 0 else 16 * HexNumber(s[..|s| - 1]) + HexValue(s[|s| - 1])
  }

  /** How many characters at the front of `s` are hexadecimal digits. */
  function HexLength(s: string): (n: nat)
    ensures n <= |s| && AllHex(s[..n])
    ensures n < |s| ==> !IsHexDigit(s[n])
  {
    if s == "" || !IsHexDigit(s[0]) then 0
    else
      assert forall i :: 0 < i < 1 + HexLength(s[1..]) ==> s[i] == s[1..][i - 1];
      1 + HexLength(s[1..])
  }

  predicate HasHexPrefix(s: string) {
    |s| >= 2 && s[0] == '0' && (s[1] == 'x' || s[1] == 'X')
  }

  /** What `strtoul` in base 16 reads from a text that does not start with whitespace: an optional sign, an optional
      `0x` and the digits up to the first other character. */
  function SignedHex(s: string): Option<(bool, nat)> {
    var signed := s != "" && (s[0] == '-' || s[0] == '+');
    var body := if signed then s[1..] else s;
    var digits := if HasHexPrefix(body) && |body| > 2 && IsHexDigit(body[2]) then body[2..] else body;
    var n := HexLength(digits);
    if n == 0 then None else Some((signed && s[0] == '-', HexNumber(digits[..n])))
  }

  /** A word: what `operator>>` can extract from a stream. */
  predicate IsWord(s: string) {
    s != "" && forall i :: 0 <= i < |s| ==> !IsSpace(s[i])
  }

  /** Length of the longest prefix of `s` without whitespace. */
  function WordLength(s: string): (n: nat)
    ensures n <= |s|
    ensures forall i :: 0 <= i < n ==> !IsSpace(s[i])
    ensures n < |s| ==> IsSpace(s[n])
  {
    if s == "" || IsSpace(s[0]) then 0 else 1 + WordLength(s[1..])
  }

  /** The words of `s`, in order. */
  function Words(s: string): (ws: seq<string>)
    ensures forall i :: 0 <= i < |ws| ==> IsWord(ws[i])
    decreases |s|
  {
    if s == "" then []
    else if IsSpace(s[0]) then Words(s[1..])
    else
      var n := WordLength(s);
      [s[..n]] + Words(s[n..])
  }

  /** One stream extraction: the first word of `s` and what follows it. */
  function NextWord(s: string): (r: Option<(string, string)>)
    ensures r.None? <==> Words(s) == []
    ensures r.Some? ==> Words(s) == [r.value.0] + Words(r.value.1) && |r.value.1| < |s|
    decreases |s|
  {
    if s == "" then None
    else if IsSpace(s[0]) then NextWord(s[1..])
    else
      var n := WordLength(s);
      Some((s[..n], s[n..]))
  }

  /** Words separated by single spaces. */
  function Joined(ws: seq<string>): string {
    if ws == [] then ""
    else if |ws| == 1 then ws[0]
    else Joined(ws[..|ws| - 1]) + " " + ws[|ws| - 1]
  }

  const BLANKS := " \t\r\n"

  function StripLeft(s: string, chars: string): string {
    if s != "" && s[0] in chars then StripLeft(s[1..], chars) else s
  }

  function StripRight(s: string, chars: string): string {
    if s != "" && s[|s| - 1] in chars then StripRight(s[..|s| - 1], chars) else s
  }

  function Trimmed(s: string): string {
    StripRight(StripLeft(s, BLANKS), BLANKS)
  }

  lemma {:induction false} WordLengthOfPrefix(w: string, t: string)
    requires forall i :: 0 <= i < |w| ==> !IsSpace(w[i])
    requires t == "" || IsSpace(t[0])
    ensures WordLength(w + t) == |w|
    decreases |w|
  {
    var s := w + t;
    if w == "" {
      assert s == t;
    } else {
      assert s[0] == w[0] && s[1..] == w[1..] + t;
      WordLengthOfPrefix(w[1..], t);
    }
  }

  /** A word at the front, ended by whitespace or the end of the text, is the first word. */
  lemma WordsOfFront(w: string, t: string)
    requires IsWord(w)
    requires t == "" || IsSpace(t[0])
    ensures Words(w + t) == [w] + Words(t)
  {
    WordLengthOfPrefix(w, t);
    assert (w + t)[..|w|] == w && (w + t)[|w|..] == t;
  }

  /** Appending a separated word appends it to the word list. */
  lemma {:induction false} WordsOfAppend(s: string, w: string)
    requires IsWord(w)
    ensures Words(s + " " + w) == Words(s) + [w]
    decreases |s|
  {
    var t := s + " " + w;
    if s == "" {
      assert t == " " + w && t[1..] == w;
      WordsOfFront(w, "");
      assert w + "" == w;
    } else if IsSpace(s[0]) {
      assert t[1..] == s[1..] + " " + w;
      WordsOfAppend(s[1..], w);
    } else {
      var n := WordLength(s);
      var u := s[n..] + " " + w;
      assert t == s[..n] + u;
      WordsOfFront(s[..n], u);
      WordsOfAppend(s[n..], w);
    }
  }

  /** Splitting undoes joining. */
  lemma {:induction false} WordsOfJoined(ws: seq<string>)
    requires forall i :: 0 <= i < |ws| ==> IsWord(ws[i])
    ensures Words(Joined(ws)) == ws
  {
    if ws == [] {
    } else if |ws| == 1 {
      WordsOfFront(ws[0], "");
      assert ws[0] + "" == ws[0];
    } else {
      var init := ws[..|ws| - 1];
      WordsOfJoined(init);
      WordsOfAppend(Joined(init), ws[|ws| - 1]);
    }
  }

  lemma {:induction false} WordsOfTrailingSpace(s: string, c: char)
    requires IsSpace(c)
    ensures Words(s + [c]) == Words(s)
    decreases |s|
  {
    var t := s + [c];
    if s == "" {
      assert t[1..] == "";
    } else if IsSpace(s[0]) {
      assert t[1..] == s[1..] + [c];
      WordsOfTrailingSpace(s[1..], c);
    } else {
      var n := WordLength(s);
      assert t == s[..n] + (s[n..] + [c]);
      WordsOfFront(s[..n], s[n..] + [c]);
      WordsOfTrailingSpace(s[n..], c);
    }
  }

  /** Trimming does not change the words. */
  lemma {:induction false} WordsOfTrimmed(s: string)
    ensures Words(Trimmed(s)) == Words(s)
    decreases |s|
  {
    if s != "" && s[0] in BLANKS {
      WordsOfTrimmed(s[1..]);
    } else {
      WordsOfStripRight(s);
    }
  }

  lemma {:induction false} WordsOfStripRight(s: string)
    ensures Words(StripRight(s, BLANKS)) == Words(s)
    decreases |s|
  {
    if s != "" && s[|s| - 1] in BLANKS {
      var t := s[..|s| - 1];
      WordsOfStripRight(t);
      WordsOfTrailingSpace(t, s[|s| - 1]);
      assert s == t + [s[|s| - 1]];
    }
  }
}
