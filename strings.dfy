/** Text helpers shared by the server and the client models: decimal and
    hexadecimal digits, splitting and joining on a separator character,
    substring search, stripping a set of characters and ASCII case folding. */
module Strings {

  datatype Result<T, E> = Ok(value: T) | Err(error: E)

  datatype Option<T> = None | Some(value: T) {
    function GetOr(default: T): T {
      match this
      case Some(v) => v
      case None => default
    }
  }

  // ---------------------------------------------------------------------
  // Decimal digits

  predicate IsDecDigit(c: char) { '0' <= c <= '9' }

  function DecDigitValue(c: char): nat
    requires IsDecDigit(c)
  {
    (c as int - '0' as int) as nat
  }

  /** The value of a string of decimal digits (the empty string reads as 0). */
  function DecValue(s: string): nat
    requires forall i :: 0 <= i < |s| ==> IsDecDigit(s[i])
  {
    if s == [] then 0 else DecValue(s[..|s| - 1]) * 10 + DecDigitValue(s[|s| - 1])
  }

  /** The shortest decimal spelling of `n`, as both Python's `str` and
      JavaScript's number-to-string conversion give it for an integer. */
  function NatToDec(n: nat): (s: string)
    ensures |s| >= 1
    ensures forall i :: 0 <= i < |s| ==> IsDecDigit(s[i])
    ensures DecValue(s) == n
    ensures s[0] == '0' ==> s == "0"
  {
    var last := ['0' + (n % 10) as char];
    if n < 10 then last
    else
      var init := NatToDec(n / 10);
      assert (init + last)[..|init + last| - 1] == init;
      init + last
  }

  // ---------------------------------------------------------------------
  // Hexadecimal digits

  predicate IsHexDigit(c: char) { '0' <= c <= '9' || 'a' <= c <= 'f' || 'A' <= c <= 'F' }

  function HexDigitValue(c: char): (v: nat)
    requires IsHexDigit(c)
    ensures v < 16
  {
    if '0' <= c <= '9' then (c as int - '0' as int) as nat
    else if 'a' <= c <= 'f' then (c as int - 'a' as int + 10) as nat
    else (c as int - 'A' as int + 10) as nat
  }

  /** The lower-case hexadecimal digit for a value below 16. */
  function LowerHexChar(d: nat): (c: char)
    requires d < 16
    ensures IsHexDigit(c) && HexDigitValue(c) == d
    ensures '0' <= c <= '9' || 'a' <= c <= 'f'
  {
    if d < 10 then '0' + d as char else 'a' + (d - 10) as char
  }

  /** The value of a string of hexadecimal digits (the empty string reads as 0). */
  function HexValue(s: string): nat
    requires forall i :: 0 <= i < |s| ==> IsHexDigit(s[i])
  {
    if s == [] then 0 else HexValue(s[..|s| - 1]) * 16 + HexDigitValue(s[|s| - 1])
  }

  /** The shortest lower-case hexadecimal spelling of `n` (`format(n, 'x')`). */
  function NatToHex(n: nat): (s: string)
    ensures |s| >= 1
    ensures forall i :: 0 <= i < |s| ==> IsHexDigit(s[i]) && !('A' <= s[i] <= 'F')
    ensures HexValue(s) == n
    ensures n < 16 <==> |s| == 1
  {
    var last := [LowerHexChar(n % 16)];
    if n < 16 then last
    else
      var init := NatToHex(n / 16);
      assert (init + last)[..|init + last| - 1] == init;
      init + last
  }

  // ---------------------------------------------------------------------
  // Searching

  predicate StartsWith(s: string, prefix: string) {
    |prefix| <= |s| && s[..|prefix|] == prefix
  }

  predicate EndsWith(s: string, suffix: string) {
    |suffix| <= |s| && s[|s| - |suffix|..] == suffix
  }

  /** `pat in s` for strings: `pat` occurs in `s` at some position. */
  predicate Contains(s: string, pat: string)
    decreases |s|
  {
    StartsWith(s, pat) || (s != [] && Contains(s[1..], pat))
  }

  /** An occurrence at any index is an occurrence. */
  lemma {:induction false} ContainsAt(s: string, pat: string, i: nat)
    requires i + |pat| <= |s| && s[i..i + |pat|] == pat
    ensures Contains(s, pat)
    decreases i
  {
    if i == 0 {
      assert s[..|pat|] == pat;
    } else {
      assert s[1..][i - 1..i - 1 + |pat|] == pat;
      ContainsAt(s[1..], pat, i - 1);
    }
  }

  /** For a one-character pattern, Contains is plain membership. */
  lemma {:induction false} ContainsChar(s: string, c: char)
    ensures Contains(s, [c]) <==> c in s
  {
    if s != [] {
      ContainsChar(s[1..], c);
      assert s == [s[0]] + s[1..];
    }
  }

  /** The index of the first occurrence of `pat` in `s`, if any (`s.find(pat)`). */
  function Find(s: string, pat: string): (r: Option<nat>)
    ensures r.None? <==> !Contains(s, pat)
    ensures r.Some? ==> r.value + |pat| <= |s| && s[r.value..r.value + |pat|] == pat
    decreases |s|
  {
    if StartsWith(s, pat) then Some(0)
    else if s == [] then None
    else
      var t := Find(s[1..], pat);
      if t.None? then None
      else
        assert forall k :: t.value + 1 <= k < t.value + 1 + |pat| ==> s[k] == s[1..][k - 1];
        assert s[t.value + 1..t.value + 1 + |pat|] == s[1..][t.value..t.value + |pat|];
        Some(t.value + 1)
  }

  /** Find gives the first occurrence: `pat` starts at no earlier index. */
  lemma {:induction false} FindFirst(s: string, pat: string, j: nat)
    requires Find(s, pat).Some? && j < Find(s, pat).value
    ensures !StartsWith(s[j..], pat)
    decreases |s|
  {
    if j > 0 {
      FindFirst(s[1..], pat, j - 1);
      assert s[j..] == s[1..][j - 1..];
    }
  }

  /** A pattern without the separator character occurs in `a + [sep] + b`
      only if it occurs in `a` or in `b`. */
  lemma {:induction false} ContainsAround(a: string, b: string, sep: char, pat: string)
    requires sep !in pat && pat != []
    ensures Contains(a + [sep] + b, pat) ==> Contains(a, pat) || Contains(b, pat)
    decreases |a|
  {
    var s := a + [sep] + b;
    if a == [] {
      assert s == [sep] + b && s[1..] == b;
      assert s[0] == sep && pat[0] in pat;
    } else {
      assert s[1..] == a[1..] + [sep] + b;
      ContainsAround(a[1..], b, sep, pat);
      if |pat| <= |a| {
        assert a[..|pat|] == s[..|pat|];
      } else {
        assert s[|a|] == sep && pat[|a|] in pat;
      }
    }
  }

  /** The index of the last occurrence of `c` in `s`, if any. */
  function LastIndexOf(s: string, c: char): (r: Option<nat>)
    ensures r.None? <==> c !in s
    ensures r.Some? ==> r.value < |s| && s[r.value] == c && c !in s[r.value + 1..]
  {
    if s == [] then None
    else if s[|s| - 1] == c then Some(|s| - 1)
    else
      var t := LastIndexOf(s[..|s| - 1], c);
      if t.None? then
        assert s == s[..|s| - 1] + [s[|s| - 1]];
        None
      else
        assert s[t.value + 1..] == s[..|s| - 1][t.value + 1..] + [s[|s| - 1]];
        Some(t.value)
  }

  // ---------------------------------------------------------------------
  // Splitting and joining on one separator character

  /** `s.split(sep)` for a one-character separator: always at least one piece. */
  function Split(s: string, sep: char): (r: seq<string>)
    ensures |r| >= 1
  {
    if s == [] then [""]
    else if s[0] == sep then [""] + Split(s[1..], sep)
    else
      var rest := Split(s[1..], sep);
      [[s[0]] + rest[0]] + rest[1..]
  }

  /** `sep.join(pieces)`. */
  function Join(pieces: seq<string>, sep: char): string
  {
    if pieces == [] then ""
    else if |pieces| == 1 then pieces[0]
    else pieces[0] + [sep] + Join(pieces[1..], sep)
  }

  /** Splitting loses nothing: joining the pieces back gives the input. */
  lemma {:induction false} SplitJoin(s: string, sep: char)
    ensures Join(Split(s, sep), sep) == s
  {
    if s != [] {
      SplitJoin(s[1..], sep);
      SplitJoinStep(s[0], s[1..], sep);
      assert s == [s[0]] + s[1..];
    }
  }

  lemma SplitJoinStep(c: char, t: string, sep: char)
    requires Join(Split(t, sep), sep) == t
    ensures Join(Split([c] + t, sep), sep) == [c] + t
  {
    SplitCons(c, t, sep);
    var rest := Split(t, sep);
    if c == sep {
      JoinCons("", rest, sep);
    } else {
      var tail := rest[1..];
      assert rest == [rest[0]] + tail;
      JoinCons(rest[0], tail, sep);
      JoinCons([c] + rest[0], tail, sep);
    }
  }

  /** No piece holds the separator. */
  lemma {:induction false} SplitPieces(s: string, sep: char)
    ensures forall i :: 0 <= i < |Split(s, sep)| ==> sep !in Split(s, sep)[i]
  {
    if s != [] {
      var t := s[1..];
      assert s == [s[0]] + t;
      SplitPieces(t, sep);
      SplitCons(s[0], t, sep);
      var rest := Split(t, sep);
      var r := Split(s, sep);
      forall i | 0 <= i < |r| ensures sep !in r[i] {
        if i > 0 {
          assert r[i] == rest[if s[0] == sep then i - 1 else i];
        }
      }
    }
  }

  /** Joining a first piece to the rest. */
  lemma JoinCons(x: string, pieces: seq<string>, sep: char)
    ensures Join([x] + pieces, sep) == if pieces == [] then x else x + [sep] + Join(pieces, sep)
  {
    assert ([x] + pieces)[1..] == pieces;
  }

  /** A string without the separator is one piece. */
  lemma {:induction false} SplitNoSep(s: string, sep: char)
    requires sep !in s
    ensures Split(s, sep) == [s]
  {
    if s != [] {
      SplitNoSep(s[1..], sep);
      assert s == [s[0]] + s[1..];
    }
  }

  /** Splitting at a separator between `a` and `b` splits `a` and `b` apart. */
  lemma {:induction false} SplitAround(a: string, b: string, sep: char)
    ensures Split(a + [sep] + b, sep) == Split(a, sep) + Split(b, sep)
  {
    if a == [] {
      assert a + [sep] + b == [sep] + b;
      SplitCons(sep, b, sep);
    } else {
      var tail := a[1..] + [sep] + b;
      assert a + [sep] + b == [a[0]] + tail;
      assert a == [a[0]] + a[1..];
      SplitCons(a[0], tail, sep);
      SplitCons(a[0], a[1..], sep);
      SplitAround(a[1..], b, sep);
      SnocPieces(a[0], sep, Split(a[1..], sep), Split(b, sep));
    }
  }

  /** How one more character in front changes the pieces. */
  lemma SplitCons(c: char, t: string, sep: char)
    ensures Split([c] + t, sep) ==
      if c == sep then [""] + Split(t, sep)
      else [[c] + Split(t, sep)[0]] + Split(t, sep)[1..]
  {
    assert ([c] + t)[1..] == t;
  }

  lemma SnocPieces(c: char, sep: char, left: seq<string>, right: seq<string>)
    requires |left| >= 1
    ensures var rest := left + right;
      (if c == sep then [""] + rest else [[c] + rest[0]] + rest[1..]) ==
      (if c == sep then [""] + left else [[c] + left[0]] + left[1..]) + right
  {
    var rest := left + right;
    assert rest[0] == left[0] && rest[1..] == left[1..] + right;
  }

  // ---------------------------------------------------------------------
  // Stripping characters from both ends

  /** The index of the first character at or after `k` that is not in
      `ws`, or `|s|` when there is none. */
  function SkipForward(s: string, ws: set<char>, k: nat): (n: nat)
    requires k <= |s|
    ensures k <= n <= |s|
    ensures forall j :: k <= j < n ==> s[j] in ws
    ensures n < |s| ==> s[n] !in ws
    decreases |s| - k
  {
    if k < |s| && s[k] in ws then SkipForward(s, ws, k + 1) else k
  }

  /** The index just after the last character before `k`, and not before
      `lo`, that is not in `ws`, or `lo` when there is none. */
  function SkipBackward(s: string, ws: set<char>, lo: nat, k: nat): (n: nat)
    requires lo <= k <= |s|
    ensures lo <= n <= k
    ensures forall j :: n <= j < k ==> s[j] in ws
    ensures n > lo ==> s[n - 1] !in ws
    decreases k
  {
    if k > lo && s[k - 1] in ws then SkipBackward(s, ws, lo, k - 1) else k
  }

  /** `s` without the characters of `ws` at its start. */
  function StripStart(s: string, ws: set<char>): string {
    s[SkipForward(s, ws, 0)..]
  }

  /** `s` without the characters of `ws` at its end. */
  function StripEnd(s: string, ws: set<char>): string {
    s[..SkipBackward(s, ws, 0, |s|)]
  }

  /** `s` without the characters of `ws` at both ends. */
  function Strip(s: string, ws: set<char>): (r: string)
    ensures |r| <= |s|
    ensures r == [] || (r[0] !in ws && r[|r| - 1] !in ws)
  {
    var i := SkipForward(s, ws, 0);
    s[i..SkipBackward(s, ws, i, |s|)]
  }

  /** Stripping keeps the one middle slice of `s` that neither starts nor
      ends with a character of `ws` and outside of which every character is
      in `ws`. */
  lemma StripSlice(s: string, ws: set<char>)
    ensures exists i, j ::
              0 <= i <= j <= |s| && Strip(s, ws) == s[i..j] &&
              (forall k :: 0 <= k < i ==> s[k] in ws) &&
              (forall k :: j <= k < |s| ==> s[k] in ws) &&
              (i < j ==> s[i] !in ws && s[j - 1] !in ws)
  {
    var i := SkipForward(s, ws, 0);
    var j := SkipBackward(s, ws, i, |s|);
    assert Strip(s, ws) == s[i..j];
  }

  /** Stripping leaves a string alone whose ends are not to be stripped. */
  lemma StripKeeps(s: string, ws: set<char>)
    requires s != [] && s[0] !in ws && s[|s| - 1] !in ws
    ensures Strip(s, ws) == s
  {
    assert SkipForward(s, ws, 0) == 0;
    assert SkipBackward(s, ws, 0, |s|) == |s|;
  }

  /** The characters Python's `str.isspace` accepts: what `str.strip()`
      removes. */
  const PyWhitespace: set<char> :=
    {'\t', '\n', '\U{B}', '\U{C}', '\r', '\U{1C}', '\U{1D}', '\U{1E}', '\U{1F}', ' ',
     '\U{85}', '\U{A0}', '\U{1680}', '\U{2000}', '\U{2001}', '\U{2002}', '\U{2003}',
     '\U{2004}', '\U{2005}', '\U{2006}', '\U{2007}', '\U{2008}', '\U{2009}', '\U{200A}',
     '\U{2028}', '\U{2029}', '\U{202F}', '\U{205F}', '\U{3000}'}

  /** What `int()` ignores around its argument. Before parsing, a
      white-space character outside ASCII becomes a plain space, while every
      character below 127 is kept as it is; the ASCII characters then skipped
      are only space, tab, newline, vertical tab, form feed and carriage
      return. So the information separators U+001C to U+001F, which
      `str.strip()` removes, are never skipped by `int()`. */
  const IntWhitespace: set<char> := PyWhitespace - {'\U{1C}', '\U{1D}', '\U{1E}', '\U{1F}'}

  // ---------------------------------------------------------------------
  // Case folding

  function LowerChar(c: char): char {
    if 'A' <= c <= 'Z' then c - 'A' + 'a' else c
  }

  /** Lower-cases the ASCII letters of `s` and leaves every other character. */
  function Lower(s: string): (r: string)
    ensures |r| == |s|
    ensures forall i :: 0 <= i < |s| ==> r[i] == LowerChar(s[i])
  {
    if s == [] then [] else [LowerChar(s[0])] + Lower(s[1..])
  }

  // ---------------------------------------------------------------------
  // Removing every occurrence of a pattern

  /** `s.replace(pat, '')`: occurrences are found left to right and do not
      overlap. */
  function RemoveAll(s: string, pat: string): (r: string)
    requires pat != []
    ensures |r| <= |s|
    ensures forall c :: c in r ==> c in s
    decreases |s|
  {
    if s == [] then []
    else if StartsWith(s, pat) then RemoveAll(s[|pat|..], pat)
    else [s[0]] + RemoveAll(s[1..], pat)
  }

  /** When the first character of `pat` does not occur in `stem`, removing
      `pat` from `stem + pat` gives back `stem`. */
  lemma {:induction false} RemoveAllSuffix(stem: string, pat: string)
    requires pat != [] && pat[0] !in stem
    ensures RemoveAll(stem + pat, pat) == stem
  {
    if stem == [] {
      assert StartsWith(pat, pat);
      assert pat[|pat|..] == [];
    } else {
      var s := stem + pat;
      assert s[0] == stem[0] != pat[0];
      assert !StartsWith(s, pat);
      assert s[1..] == stem[1..] + pat;
      RemoveAllSuffix(stem[1..], pat);
    }
  }

  // ---------------------------------------------------------------------
  // Lexicographic order by code point, as Python compares `str` values

  predicate LexLe(a: string, b: string)
  {
    a == [] || (b != [] && (a[0] < b[0] || (a[0] == b[0] && LexLe(a[1..], b[1..]))))
  }

  lemma {:induction false} LexLeTotal(a: string, b: string)
    ensures LexLe(a, b) || LexLe(b, a)
  {
    if a != [] && b != [] && a[0] == b[0] {
      LexLeTotal(a[1..], b[1..]);
    }
  }
}
