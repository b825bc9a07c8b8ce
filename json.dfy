/** `JSON.stringify(list, null, 2)` for a list of strings, the fallback
    format of the export panel, together with a decoder for the text it
    writes. The decoder is an independent reading of the same format: the
    round trip `DecodeList(StringifyList(cs)) == Some(cs)` ties the two. */
module Json {
  import opened Strings

  // ---------------------------------------------------------------------
  // String literals

  /** What JSON.stringify writes for one character of a string: the quote,
      the backslash and the five control characters with a short escape are
      escaped by name, every other control character as `\u00xx` in
      lower-case hex, and every other character stands for itself. */
  function EscapeChar(c: char): (r: string)
    ensures r == [c] <==> (' ' <= c && c != '"' && c != '\\')
    ensures r != [c] ==> |r| >= 2 && r[0] == '\\'
    ensures forall i :: 0 <= i < |r| ==> ' ' <= r[i]
  {
    if c == '"' then "\\\""
    else if c == '\\' then "\\\\"
    else if c == '\U{8}' then "\\b"
    else if c == '\U{C}' then "\\f"
    else if c == '\n' then "\\n"
    else if c == '\r' then "\\r"
    else if c == '\t' then "\\t"
    else if c < ' ' then "\\u00" + [LowerHexChar(c as int / 16), LowerHexChar(c as int % 16)]
    else [c]
  }

  /** The text between the quotes of a string literal. */
  function Escape(s: string): (r: string)
    ensures forall i :: 0 <= i < |r| ==> ' ' <= r[i]
  {
    if s == [] then [] else EscapeChar(s[0]) + Escape(s[1..])
  }

  /** A JSON string literal. */
  function Quote(s: string): (r: string)
    ensures |r| >= 2 && r[0] == '"' && r[|r| - 1] == '"'
    ensures '\n' !in r
  {
    var r := "\"" + Escape(s) + "\"";
    assert forall i :: 1 <= i < |r| - 1 ==> r[i] == Escape(s)[i - 1];
    r
  }

  /** The character a two-character escape `\c` stands for, if `c` names one. */
  function ShortEscape(c: char): Option<char> {
    if c == '"' then Some('"')
    else if c == '\\' then Some('\\')
    else if c == '/' then Some('/')
    else if c == 'b' then Some('\U{8}')
    else if c == 'f' then Some('\U{C}')
    else if c == 'n' then Some('\n')
    else if c == 'r' then Some('\r')
    else if c == 't' then Some('\t')
    else None
  }

  predicate AllHex(s: string) {
    forall i :: 0 <= i < |s| ==> IsHexDigit(s[i])
  }

  function Prepend(c: char, rest: Option<string>): Option<string> {
    match rest
    case None => None
    case Some(s) => Some([c] + s)
  }

  /** The value of the text between the quotes of a string literal, or None
      when it holds a raw quote, a raw control character or a malformed
      escape. A `\u` escape takes four hex digits in either case and must
      not name a surrogate. */
  function Unescape(t: string): (r: Option<string>)
    decreases |t|
  {
    if t == [] then Some([])
    else if t[0] == '"' || t[0] < ' ' then None
    else if t[0] != '\\' then Prepend(t[0], Unescape(t[1..]))
    else if |t| < 2 then None
    else if ShortEscape(t[1]).Some? then Prepend(ShortEscape(t[1]).value, Unescape(t[2..]))
    else if t[1] == 'u' && |t| >= 6 && AllHex(t[2..6]) then
      var v := 4096 * HexDigitValue(t[2]) + 256 * HexDigitValue(t[3])
             + 16 * HexDigitValue(t[4]) + HexDigitValue(t[5]);
      if 0xD800 <= v < 0xE000 then None
      else Prepend(v as char, Unescape(t[6..]))
    else None
  }

  /** Decoding the escape of one character, followed by anything, gives
      that character in front of what the rest decodes to. */
  lemma UnescapeChar(c: char, rest: string)
    ensures Unescape(EscapeChar(c) + rest) == Prepend(c, Unescape(rest))
  {
    var t := EscapeChar(c) + rest;
    if c < ' ' && c != '\U{8}' && c != '\U{C}' && c != '\n' && c != '\r' && c != '\t' {
      UnescapeControl(c, rest);
    } else if EscapeChar(c) == [c] {
      assert t[1..] == rest;
    } else {
      assert t[2..] == rest;
    }
  }

  lemma UnescapeControl(c: char, rest: string)
    requires c < ' ' && c != '\U{8}' && c != '\U{C}' && c != '\n' && c != '\r' && c != '\t'
    ensures Unescape(EscapeChar(c) + rest) == Prepend(c, Unescape(rest))
  {
    var n := c as int;
    var hi := LowerHexChar(n / 16);
    var lo := LowerHexChar(n % 16);
    assert EscapeChar(c) == "\\u00" + [hi, lo];
    UnescapeHex(hi, lo, rest);
    assert 16 * (n / 16) + n % 16 == n;
  }

  /** A `\u00xy` escape decodes to the character with code `xy`. */
  lemma UnescapeHex(hi: char, lo: char, rest: string)
    requires IsHexDigit(hi) && IsHexDigit(lo)
    ensures Unescape("\\u00" + [hi, lo] + rest) ==
      Prepend((16 * HexDigitValue(hi) + HexDigitValue(lo)) as char, Unescape(rest))
  {
    var t := "\\u00" + [hi, lo] + rest;
    assert t[0] == '\\' && t[1] == 'u' && t[2] == '0' && t[3] == '0';
    assert t[2..6] == ['0', '0', hi, lo];
    assert t[6..] == rest;
  }

  /** Decoding undoes escaping, for every string. */
  lemma {:induction false} UnescapeEscape(s: string)
    ensures Unescape(Escape(s)) == Some(s)
  {
    if s != [] {
      UnescapeEscape(s[1..]);
      UnescapeChar(s[0], Escape(s[1..]));
      assert [s[0]] + s[1..] == s;
    }
  }

  // ---------------------------------------------------------------------
  // A list of strings, indented by two spaces

  /** `JSON.stringify(cs, null, 2)`: `[]` for the empty list, otherwise the
      literals on lines of their own, indented by two spaces and separated
      by commas, between a `[` line and a `]` line. */
  function StringifyList(cs: seq<string>): (r: string)
    ensures |r| >= 2 && r[0] == '['
    ensures r == "[]" <==> cs == []
  {
    if cs == [] then "[]"
    else "[\n  " + Elements(cs) + "\n]"
  }

  /** The literals of `cs` joined by `,\n  `. */
  function Elements(cs: seq<string>): string
    requires cs != []
  {
    if |cs| == 1 then Quote(cs[0])
    else Quote(cs[0]) + ",\n  " + Elements(cs[1..])
  }

  /** The line that holds one literal of a non-empty list: a comma follows
      every literal but the last. */
  function ElementLine(c: string, last: bool): string {
    "  " + Quote(c) + (if last then "" else ",")
  }

  function ElementLines(cs: seq<string>): (r: seq<string>)
    ensures |r| == |cs|
    ensures forall i :: 0 <= i < |cs| ==> r[i] == ElementLine(cs[i], i == |cs| - 1)
  {
    if cs == [] then []
    else [ElementLine(cs[0], |cs| == 1)] + ElementLines(cs[1..])
  }

  /** A non-empty list is printed one literal per line between `[` and `]`. */
  lemma StringifyLines(cs: seq<string>)
    requires cs != []
    ensures Split(StringifyList(cs), '\n') == ["["] + ElementLines(cs) + ["]"]
  {
    var body := "  " + Elements(cs);
    StringifyShape(cs);
    ElementsLines(cs);
    SplitBetween("[", body, "]", '\n');
    SplitNoSep("[", '\n');
    SplitNoSep("]", '\n');
  }

  lemma StringifyShape(cs: seq<string>)
    requires cs != []
    ensures StringifyList(cs) == "[" + ['\n'] + ("  " + Elements(cs)) + ['\n'] + "]"
  {
  }

  lemma SplitBetween(a: string, mid: string, b: string, sep: char)
    ensures Split(a + [sep] + mid + [sep] + b, sep) == Split(a, sep) + Split(mid, sep) + Split(b, sep)
  {
    SplitAround(a + [sep] + mid, b, sep);
    SplitAround(a, mid, sep);
  }

  lemma {:induction false} ElementsLines(cs: seq<string>)
    requires cs != []
    ensures Split("  " + Elements(cs), '\n') == ElementLines(cs)
  {
    var first := ElementLine(cs[0], |cs| == 1);
    ElementLineOneLine(cs[0], |cs| == 1);
    if |cs| == 1 {
      assert "  " + Elements(cs) == first;
      SplitNoSep(first, '\n');
    } else {
      ElementsLines(cs[1..]);
      ElementsStep(cs);
      SplitAround(first, "  " + Elements(cs[1..]), '\n');
      SplitNoSep(first, '\n');
    }
  }

  lemma ElementsStep(cs: seq<string>)
    requires |cs| >= 2
    ensures "  " + Elements(cs) == ElementLine(cs[0], false) + ['\n'] + ("  " + Elements(cs[1..]))
  {
    var q := Quote(cs[0]);
    var e := Elements(cs[1..]);
    assert Elements(cs) == q + ",\n  " + e;
    Regroup(q, e);
  }

  lemma Regroup(q: string, e: string)
    ensures "  " + (q + ",\n  " + e) == "  " + q + "," + ['\n'] + ("  " + e)
  {
  }

  lemma ElementLineOneLine(c: string, last: bool)
    ensures '\n' !in ElementLine(c, last)
  {
    var q := Quote(c);
    var line := ElementLine(c, last);
    assert forall i :: 2 <= i < 2 + |q| ==> line[i] == q[i - 2];
  }

  // ---------------------------------------------------------------------
  // Reading the list back

  /** Reads one element line: two spaces, a literal, and a comma unless it
      is the last line. */
  function DecodeLine(line: string, last: bool): Option<string> {
    var tail := if last then "\"" else "\",";
    if |line| >= 3 + |tail| && line[..3] == "  \"" && line[|line| - |tail|..] == tail
    then Unescape(line[3..|line| - |tail|])
    else None
  }

  function DecodeLines(lines: seq<string>): Option<seq<string>> {
    if lines == [] then Some([])
    else
      match DecodeLine(lines[0], |lines| == 1)
      case None => None
      case Some(c) =>
        match DecodeLines(lines[1..])
        case None => None
        case Some(cs) => Some([c] + cs)
  }

  /** Reads the text JSON.stringify writes for a list of strings. */
  function DecodeList(text: string): Option<seq<string>> {
    if text == "[]" then Some([])
    else
      var lines := Split(text, '\n');
      if |lines| >= 3 && lines[0] == "[" && lines[|lines| - 1] == "]"
      then DecodeLines(lines[1..|lines| - 1])
      else None
  }

  lemma DecodeElementLine(c: string, last: bool)
    ensures DecodeLine(ElementLine(c, last), last) == Some(c)
  {
    var tail := if last then "\"" else "\",";
    assert ElementLine(c, last) == "  \"" + Escape(c) + tail;
    DecodeFramed(Escape(c), last);
    UnescapeEscape(c);
  }

  /** A line framed as an element line decodes its middle part. */
  lemma DecodeFramed(e: string, last: bool)
    ensures DecodeLine("  \"" + e + (if last then "\"" else "\","), last) == Unescape(e)
  {
    var tail := if last then "\"" else "\",";
    var line := "  \"" + e + tail;
    assert line[..3] == "  \"";
    assert line[|line| - |tail|..] == tail;
    assert line[3..|line| - |tail|] == e;
  }

  lemma {:induction false} DecodeElementLines(cs: seq<string>)
    ensures DecodeLines(ElementLines(cs)) == Some(cs)
  {
    if cs != [] {
      DecodeElementLines(cs[1..]);
      DecodeElementLine(cs[0], |cs| == 1);
      DecodeLinesCons(ElementLine(cs[0], |cs| == 1), ElementLines(cs[1..]));
      assert [cs[0]] + cs[1..] == cs;
    }
  }

  /** Decoding a first line in front of the rest. */
  lemma DecodeLinesCons(line: string, rest: seq<string>)
    ensures DecodeLines([line] + rest) ==
      match DecodeLine(line, rest == [])
      case None => None
      case Some(c) =>
        match DecodeLines(rest)
        case None => None
        case Some(cs) => Some([c] + cs)
  {
    assert ([line] + rest)[1..] == rest;
  }

  /** Reading back what JSON.stringify wrote gives the list it was given. */
  lemma DecodeStringify(cs: seq<string>)
    ensures DecodeList(StringifyList(cs)) == Some(cs)
  {
    if cs != [] {
      StringifyLines(cs);
      var lines := ["["] + ElementLines(cs) + ["]"];
      assert lines[1..|lines| - 1] == ElementLines(cs);
      DecodeElementLines(cs);
    }
  }
}
