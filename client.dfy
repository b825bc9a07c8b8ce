/** The browser side (static/js/script.js): the `#rgb`/`#rrggbb` reader of
    the colour popover, the export-code generator, and the view state that
    an analysis response, a tab switch, the reset button and the palette
    download act on. The page itself is not modelled: each field of
    ViewState stands for the text or content of one element (or for one of
    the script's module-level variables), and each method does to them what
    the script does. */
module Client {
  import opened Strings
  import ColorEngine
  import Json

  // ---------------------------------------------------------------------
  // hexToRgb

  /** The characters JavaScript's Number() ignores around its argument:
      white space (tab, vertical tab, form feed, no-break space, byte order
      mark and the space separators) and the line terminators. */
  const JsWhitespace: set<char> :=
    {'\t', '\n', '\U{B}', '\U{C}', '\r', ' ', '\U{A0}', '\U{1680}',
     '\U{2000}', '\U{2001}', '\U{2002}', '\U{2003}', '\U{2004}', '\U{2005}',
     '\U{2006}', '\U{2007}', '\U{2008}', '\U{2009}', '\U{200A}',
     '\U{2028}', '\U{2029}', '\U{202F}', '\U{205F}', '\U{3000}', '\U{FEFF}'}

  /** The numbers the reader can produce: a whole number, or NaN. */
  datatype JsNumber = Num(n: nat) | NaN

  /** How a number is written when it is joined into a string. */
  function NumberText(x: JsNumber): (s: string)
    ensures x.Num? ==> (forall i :: 0 <= i < |s| ==> IsDecDigit(s[i])) && DecValue(s) == x.n
    ensures x.NaN? <==> s == "NaN"
  {
    match x
    case Num(n) => NatToDec(n)
    case NaN => "NaN"
  }

  /** Unary `+` on a text that starts with `0x`: white space around it is
      ignored (here only trailing white space can occur), and what remains
      must be `0x` followed by one or more hex digits, read in base 16;
      anything else is NaN. */
  function HexNumber(s: string): JsNumber
    requires StartsWith(s, "0x")
  {
    var t := StripEnd(s, JsWhitespace);
    if |t| >= 3 && t[..2] == "0x" && Json.AllHex(t[2..]) then Num(HexValue(t[2..])) else NaN
  }

  /** `+("0x" + a + b)`: one channel read from two digit characters. */
  function Channel(a: char, b: char): JsNumber {
    HexNumber("0x" + [a, b])
  }

  /** A channel is a number exactly when its first character is a hex digit
      and its second is a hex digit or white space (which Number() trims);
      two digits read as one base-16 byte, a digit before white space as
      that one digit. */
  lemma ChannelValue(a: char, b: char)
    ensures Channel(a, b).Num? <==> IsHexDigit(a) && (IsHexDigit(b) || b in JsWhitespace)
    ensures IsHexDigit(a) && IsHexDigit(b) ==> Channel(a, b) == Num(16 * HexDigitValue(a) + HexDigitValue(b))
    ensures IsHexDigit(a) && b in JsWhitespace ==> Channel(a, b) == Num(HexDigitValue(a))
    ensures Channel(a, b).Num? ==> Channel(a, b).n < 256
  {
    TrimChannel(a, b);
    if b !in JsWhitespace {
      ChannelPair(a, b);
    } else if a !in JsWhitespace {
      ChannelSingle(a, b);
    }
  }

  lemma ChannelPair(a: char, b: char)
    requires StripEnd("0x" + [a, b], JsWhitespace) == "0x" + [a, b]
    ensures Channel(a, b) == if IsHexDigit(a) && IsHexDigit(b) then Num(16 * HexDigitValue(a) + HexDigitValue(b)) else NaN
  {
    var t := "0x" + [a, b];
    assert t[..2] == "0x" && t[2..] == [a, b];
    assert [a, b][0] == a && [a, b][1] == b;
    assert Json.AllHex([a, b]) <==> IsHexDigit(a) && IsHexDigit(b);
    if IsHexDigit(a) && IsHexDigit(b) {
      assert [a, b][..1] == [a];
      assert HexValue([a]) == HexDigitValue(a);
    }
  }

  lemma ChannelSingle(a: char, b: char)
    requires StripEnd("0x" + [a, b], JsWhitespace) == "0x" + [a]
    ensures Channel(a, b) == if IsHexDigit(a) then Num(HexDigitValue(a)) else NaN
  {
    var t := "0x" + [a];
    assert t[..2] == "0x" && t[2..] == [a];
    assert [a][0] == a && [a][..0] == [];
    assert Json.AllHex([a]) <==> IsHexDigit(a);
    if IsHexDigit(a) {
      assert HexValue([a]) == HexValue([]) * 16 + HexDigitValue(a);
    }
  }

  /** What Number() trims from `0x` and two characters: nothing when the
      last is not white space, otherwise that one, and the one before it
      too when that is white space as well. */
  lemma TrimChannel(a: char, b: char)
    ensures StripEnd("0x" + [a, b], JsWhitespace) ==
      if b !in JsWhitespace then "0x" + [a, b]
      else if a !in JsWhitespace then "0x" + [a]
      else "0x"
  {
    var s := "0x" + [a, b];
    assert s[1] == 'x' && 'x' !in JsWhitespace;
    assert s[2] == a && s[3] == b;
    if b !in JsWhitespace {
      assert SkipBackward(s, JsWhitespace, 0, 4) == 4;
    } else if a !in JsWhitespace {
      assert SkipBackward(s, JsWhitespace, 0, 3) == 3;
      assert s[..3] == "0x" + [a];
    } else {
      assert SkipBackward(s, JsWhitespace, 0, 2) == 2;
      assert s[..2] == "0x";
    }
  }

  /** The popover's `r, g, b` text for a `#rgb` or `#rrggbb` string. A
      4-character input doubles each digit, a 7-character input reads digit
      pairs; any other length gives `0, 0, 0`. The first character is never
      looked at. */
  function HexToRgbText(hex: string): (s: string)
    ensures |hex| != 4 && |hex| != 7 ==> s == "0, 0, 0"
  {
    if |hex| == 4 then
      Triple(Channel(hex[1], hex[1]), Channel(hex[2], hex[2]), Channel(hex[3], hex[3]))
    else if |hex| == 7 then
      Triple(Channel(hex[1], hex[2]), Channel(hex[3], hex[4]), Channel(hex[5], hex[6]))
    else
      assert NatToDec(0) == "0";
      Triple(Num(0), Num(0), Num(0))
  }

  function Triple(r: JsNumber, g: JsNumber, b: JsNumber): string {
    NumberText(r) + ", " + NumberText(g) + ", " + NumberText(b)
  }

  /** A short form doubles each digit: `#fff` reads as white. */
  lemma ShortWhite()
    ensures HexToRgbText("#fff") == "255, 255, 255"
  {
    var hex := "#fff";
    assert |hex| == 4 && hex[1] == 'f' && hex[2] == 'f' && hex[3] == 'f';
    DoubledDigit('f');
    assert Channel('f', 'f') == Num(255);
    Dec255();
  }

  lemma Dec255()
    ensures NatToDec(255) == "255"
  {
    assert NatToDec(2) == "2";
    assert NatToDec(25) == NatToDec(2) + "5";
    assert NatToDec(255) == NatToDec(25) + "5";
  }

  /** A doubled digit reads as 17 times its value. */
  lemma DoubledDigit(a: char)
    requires IsHexDigit(a)
    ensures Channel(a, a) == Num(17 * HexDigitValue(a))
  {
    ChannelValue(a, a);
  }

  /** A short form `#xyz` of hex digits reads as the channels 17x, 17y, 17z,
      each in 0..255. */
  lemma ShortForm(hex: string)
    requires |hex| == 4 && IsHexDigit(hex[1]) && IsHexDigit(hex[2]) && IsHexDigit(hex[3])
    ensures HexToRgbText(hex) ==
      NatToDec(17 * HexDigitValue(hex[1])) + ", " + NatToDec(17 * HexDigitValue(hex[2])) + ", "
      + NatToDec(17 * HexDigitValue(hex[3]))
  {
    var x, y, z := hex[1], hex[2], hex[3];
    assert HexToRgbText(hex) == Triple(Channel(x, x), Channel(y, y), Channel(z, z));
    DoubledDigit(x);
    DoubledDigit(y);
    DoubledDigit(z);
  }

  /** A long form `#rrggbb` of hex digits reads pair by pair, the first
      digit of each pair high. */
  lemma LongForm(hex: string)
    requires |hex| == 7 && forall i :: 1 <= i < 7 ==> IsHexDigit(hex[i])
    ensures HexToRgbText(hex) ==
      NatToDec(16 * HexDigitValue(hex[1]) + HexDigitValue(hex[2])) + ", " +
      NatToDec(16 * HexDigitValue(hex[3]) + HexDigitValue(hex[4])) + ", " +
      NatToDec(16 * HexDigitValue(hex[5]) + HexDigitValue(hex[6]))
  {
    assert IsHexDigit(hex[1]) && IsHexDigit(hex[2]) && IsHexDigit(hex[3]);
    assert IsHexDigit(hex[4]) && IsHexDigit(hex[5]) && IsHexDigit(hex[6]);
    assert HexToRgbText(hex) == Triple(Channel(hex[1], hex[2]), Channel(hex[3], hex[4]), Channel(hex[5], hex[6]));
    ChannelValue(hex[1], hex[2]);
    ChannelValue(hex[3], hex[4]);
    ChannelValue(hex[5], hex[6]);
  }

  /** What the server's rgb_to_hex writes for a byte triple, the popover
      reads back as the same three numbers. */
  lemma ReadsServerHex(r: int, g: int, b: int)
    requires 0 <= r < 256 && 0 <= g < 256 && 0 <= b < 256
    ensures HexToRgbText(ColorEngine.RgbToHex(ColorEngine.Rgb(r as real, g as real, b as real))) ==
      NatToDec(r) + ", " + NatToDec(g) + ", " + NatToDec(b)
  {
    var c := ColorEngine.Rgb(r as real, g as real, b as real);
    assert ColorEngine.Trunc(c.r) == r && ColorEngine.Trunc(c.g) == g && ColorEngine.Trunc(c.b) == b;
    var hr, hg, hb := ColorEngine.Hex02(r), ColorEngine.Hex02(g), ColorEngine.Hex02(b);
    ColorEngine.Hex02Digits(r);
    ColorEngine.Hex02Digits(g);
    ColorEngine.Hex02Digits(b);
    var s := ColorEngine.RgbToHex(c);
    assert s == "#" + hr + hg + hb;
    ColorEngine.HashPairs(hr, hg, hb);
    assert HexToRgbText(s) == Triple(Channel(hr[0], hr[1]), Channel(hg[0], hg[1]), Channel(hb[0], hb[1]));
    ReadsByte(r);
    ReadsByte(g);
    ReadsByte(b);
  }

  /** Two lower-case digits that spell a byte read back as that byte. */
  lemma ReadsByte(n: int)
    requires 0 <= n < 256
    ensures |ColorEngine.Hex02(n)| == 2
    ensures Channel(ColorEngine.Hex02(n)[0], ColorEngine.Hex02(n)[1]) == Num(n)
  {
    ColorEngine.Hex02Digits(n);
    var h := ColorEngine.Hex02(n);
    ChannelValue(h[0], h[1]);
  }

  // ---------------------------------------------------------------------
  // generateCode

  datatype Style = Css | Tailwind

  /** The line for colour number `n` (counted from 1), without its newline. */
  function StyleLine(style: Style, n: nat, c: string): string {
    match style
    case Css => "  --color-" + NatToDec(n) + ": " + c + ";"
    case Tailwind => "  'brand-" + NatToDec(n) + "': '" + c + "',"
  }

  function Header(style: Style): string {
    match style
    case Css => ":root {"
    case Tailwind => "colors: {"
  }

  /** The lines for the colours in order, numbered from 1. */
  function StyleLines(style: Style, cs: seq<string>): (r: seq<string>)
    ensures |r| == |cs|
    ensures forall i :: 0 <= i < |cs| ==> r[i] == StyleLine(style, i + 1, cs[i])
  {
    if cs == [] then []
    else StyleLines(style, cs[..|cs| - 1]) + [StyleLine(style, |cs|, cs[|cs| - 1])]
  }

  /** Each line followed by a newline, in order. */
  function Terminated(lines: seq<string>): string {
    if lines == [] then ""
    else Terminated(lines[..|lines| - 1]) + lines[|lines| - 1] + "\n"
  }

  /** The text of a style block: the header line, one line per colour,
      and the closing brace. */
  function Block(style: Style, cs: seq<string>): string {
    Header(style) + "\n" + Terminated(StyleLines(style, cs)) + "}"
  }

  /** The export text for a format: `css` and `tailwind` give a block, and
      every other format falls back to the JSON list. */
  function CodeText(cs: seq<string>, format: string): (r: string)
    ensures format != "css" && format != "tailwind" ==> Json.DecodeList(r) == Some(cs)
  {
    if format == "css" then Block(Css, cs)
    else if format == "tailwind" then Block(Tailwind, cs)
    else
      Json.DecodeStringify(cs);
      Json.StringifyList(cs)
  }

  /** A block reads line by line as its header, the colour lines in order
      and `}`, as long as no colour holds a newline. */
  lemma BlockLines(style: Style, cs: seq<string>)
    requires forall i :: 0 <= i < |cs| ==> '\n' !in cs[i]
    ensures Split(Block(style, cs), '\n') == [Header(style)] + StyleLines(style, cs) + ["}"]
  {
    var lines := StyleLines(style, cs);
    forall i | 0 <= i < |lines| ensures '\n' !in lines[i] {
      LineHasNoNewline(style, i + 1, cs[i]);
    }
    assert '\n' !in Header(style);
    TerminatedSplit(Header(style), lines, "}");
  }

  lemma LineHasNoNewline(style: Style, n: nat, c: string)
    requires '\n' !in c
    ensures '\n' !in StyleLine(style, n, c)
  {
    var d := NatToDec(n);
    assert '\n' !in d;
  }

  lemma {:induction false} TerminatedSplit(head: string, lines: seq<string>, tail: string)
    requires '\n' !in head && '\n' !in tail
    requires forall i :: 0 <= i < |lines| ==> '\n' !in lines[i]
    ensures Split(head + "\n" + Terminated(lines) + tail, '\n') == [head] + lines + [tail]
  {
    if lines == [] {
      assert head + "\n" + Terminated(lines) + tail == head + ['\n'] + tail;
      SplitAround(head, tail, '\n');
      SplitNoSep(head, '\n');
      SplitNoSep(tail, '\n');
    } else {
      var init := lines[..|lines| - 1];
      var last := lines[|lines| - 1];
      var front := head + "\n" + Terminated(init) + last;
      assert head + "\n" + Terminated(lines) + tail == front + ['\n'] + tail;
      SplitAround(front, tail, '\n');
      SplitNoSep(tail, '\n');
      TerminatedSplit(head, init, last);
      assert init + [last] == lines;
    }
  }

  // ---------------------------------------------------------------------
  // The view state

  datatype Screen = Intake | Previewing

  /** One box of the colour grid: a loading placeholder, or a swatch with
      its colour and the percentage text shown on hover. */
  datatype Box = Skeleton | Swatch(color: string, percent: string)

  /** The `data` object of a successful `/analyze` reply. Percentages are
      held as the text JavaScript prints for each number; `None` is a
      missing or null field. */
  datatype PaletteData = PaletteData(colors: seq<string>, percentages: Option<seq<string>>,
                                     average: string, usage: string, contrast: string)

  /** The texts of the average-tint and info panels. */
  datatype Details = Details(average: string, usage: string, contrast: string)

  /** What the palette download produces: the file name and, per colour
      band, the colour label and the percentage label if one is drawn. */
  datatype PaletteImage = PaletteImage(name: string, labels: seq<BandLabel>)
  datatype BandLabel = BandLabel(color: string, percent: Option<string>)

  const GeneratingText := "Generating palette..."
  const UploadPromptText := "Upload an image..."
  const EmptyPaletteToast := "No palette generated yet!"
  const DownloadedToast := "Palette Image Downloaded! \U{1F5BC}\U{FE0F}"
  const PaletteFileName := "my-palette.png"

  /** The hover text of swatch `i`: `%` and its percentage when there is
      one at that index, otherwise empty. */
  function Annotation(ps: seq<string>, i: nat): string {
    if i < |ps| then "%" + ps[i] else ""
  }

  /** The swatches for a palette, one per colour in order. */
  function Swatches(cs: seq<string>, ps: seq<string>): (r: seq<Box>)
    ensures |r| == |cs|
  {
    if cs == [] then [] else Swatches(cs[..|cs| - 1], ps) + [Swatch(cs[|cs| - 1], Annotation(ps, |cs| - 1))]
  }

  /** One more colour adds its swatch at the end. */
  lemma SwatchesSnoc(cs: seq<string>, ps: seq<string>, i: nat)
    requires i < |cs|
    ensures Swatches(cs[..i + 1], ps) == Swatches(cs[..i], ps) + [Swatch(cs[i], Annotation(ps, i))]
  {
    assert cs[..i + 1][..i] == cs[..i];
  }

  /** The grid-filling loop of updateUI: one swatch per colour, in order. */
  method BuildSwatches(cs: seq<string>, ps: seq<string>) returns (boxes: seq<Box>)
    ensures boxes == Swatches(cs, ps)
  {
    boxes := [];
    var i := 0;
    while i < |cs|
      invariant 0 <= i <= |cs|
      invariant boxes == Swatches(cs[..i], ps)
    {
      SwatchesSnoc(cs, ps, i);
      boxes := boxes + [Swatch(cs[i], Annotation(ps, i))];
      i := i + 1;
    }
    assert cs[..i] == cs;
  }

  /** Swatch `i` shows colour `i`, and it is annotated exactly when there is
      a percentage at index `i`, with that percentage after a `%`. */
  lemma {:induction false} SwatchesAligned(cs: seq<string>, ps: seq<string>, i: nat)
    requires i < |cs|
    ensures Swatches(cs, ps)[i].Swatch? && Swatches(cs, ps)[i].color == cs[i]
    ensures Swatches(cs, ps)[i].percent != "" <==> i < |ps|
    ensures i < |ps| ==> Swatches(cs, ps)[i].percent == "%" + ps[i]
  {
    if i < |cs| - 1 {
      SwatchesAligned(cs[..|cs| - 1], ps, i);
    }
  }

  /** A colour, or the text `undefined` that a template string shows for an
      index past the end of the list. */
  function ColorAt(cs: seq<string>, i: nat): string {
    if i < |cs| then cs[i] else "undefined"
  }

  /** The gradient declaration built from the first two colours. */
  function GradientText(cs: seq<string>): string {
    "background: linear-gradient(135deg, " + ColorAt(cs, 0) + ", " + ColorAt(cs, 1) + ");"
  }

  /** A one-colour palette has no second colour, so the gradient's second
      stop is the text `undefined`. */
  lemma OneColourGradient(c: string)
    ensures GradientText([c]) == "background: linear-gradient(135deg, " + c + ", undefined);"
  {
  }

  /** The band labels of the downloaded image: each colour, and its
      percentage followed by `%` when there is one at that index. */
  function BandLabels(cs: seq<string>, ps: seq<string>): (r: seq<BandLabel>)
    ensures |r| == |cs|
    ensures forall i :: 0 <= i < |cs| ==> r[i].color == cs[i]
    ensures forall i :: 0 <= i < |cs| ==> (r[i].percent.Some? <==> i < |ps|)
    ensures forall i :: 0 <= i < |cs| && i < |ps| ==> r[i].percent == Some(ps[i] + "%")
  {
    if cs == [] then []
    else
      var i := |cs| - 1;
      BandLabels(cs[..i], ps) + [BandLabel(cs[i], if i < |ps| then Some(ps[i] + "%") else None)]
  }

  class ViewState {
    /** `currentColors`, `currentPercentages` and `currentFormat`. */
    var colors: seq<string>
    var percentages: seq<string>
    var format: string
    /** The text of the export code block. */
    var codeOutput: string
    /** The contents of the colour grid. */
    var grid: seq<Box>
    /** The texts of the average tint, usage and contrast panels, once set. */
    var details: Option<Details>
    /** `window.currentGradient`, once set. */
    var gradient: Option<string>
    /** Which of the upload and preview panels is shown. */
    var screen: Screen

    /** The state when the page has loaded. The grid, the panels and the
        code block start with what the page's markup holds, which is not
        part of this model; they are taken as given. */
    constructor (initialCode: string, initialGrid: seq<Box>)
      ensures colors == [] && percentages == [] && format == "css"
      ensures codeOutput == initialCode && grid == initialGrid
      ensures details == None && gradient == None && screen == Intake
    {
      colors := [];
      percentages := [];
      format := "css";
      codeOutput := initialCode;
      grid := initialGrid;
      details := None;
      gradient := None;
      screen := Intake;
    }

    /** `generateCode`: writes the export text for the current colours in
        the current format. */
    method GenerateCode()
      modifies this
      ensures codeOutput == CodeText(colors, format)
      ensures colors == old(colors) && percentages == old(percentages) && format == old(format)
      ensures grid == old(grid) && details == old(details) && gradient == old(gradient)
      ensures screen == old(screen)
    {
      var code := "";
      if format == "css" {
        code := BuildBlock(Css, colors);
      } else if format == "tailwind" {
        code := BuildBlock(Tailwind, colors);
      } else {
        code := Json.StringifyList(colors);
      }
      codeOutput := code;
    }

    /** `switchTab`: the new format is always kept; the code is rewritten
        only when there is a palette. */
    method SwitchTab(f: string)
      modifies this
      ensures format == f
      ensures old(colors) != [] ==> codeOutput == CodeText(colors, f)
      ensures old(colors) == [] ==> codeOutput == old(codeOutput)
      ensures colors == old(colors) && percentages == old(percentages)
      ensures grid == old(grid) && details == old(details) && gradient == old(gradient)
      ensures screen == old(screen)
    {
      format := f;
      if |colors| > 0 {
        GenerateCode();
      }
    }

    /** The reset button: back to the upload panel with no palette; the
        format and the percentages are left as they were. */
    method Reset()
      modifies this
      ensures screen == Intake && colors == [] && codeOutput == UploadPromptText
      ensures format == old(format) && percentages == old(percentages)
      ensures grid == old(grid) && details == old(details) && gradient == old(gradient)
    {
      screen := Intake;
      colors := [];
      codeOutput := UploadPromptText;
    }

    /** Sending an image: five placeholder boxes and a waiting message;
        the palette itself is kept until a reply replaces it. */
    method BeginUpload()
      modifies this
      ensures grid == [Skeleton, Skeleton, Skeleton, Skeleton, Skeleton]
      ensures codeOutput == GeneratingText
      ensures colors == old(colors) && percentages == old(percentages) && format == old(format)
      ensures details == old(details) && gradient == old(gradient) && screen == old(screen)
    {
      grid := [Skeleton, Skeleton, Skeleton, Skeleton, Skeleton];
      codeOutput := GeneratingText;
    }

    /** The file reader has the image: the preview panel replaces the
        upload panel. */
    method PreviewLoaded()
      modifies this
      ensures screen == Previewing
      ensures colors == old(colors) && percentages == old(percentages) && format == old(format)
      ensures codeOutput == old(codeOutput) && grid == old(grid)
      ensures details == old(details) && gradient == old(gradient)
    {
      screen := Previewing;
    }

    /** `updateUI`: takes over the palette, draws a swatch per colour,
        fills the panels, builds the gradient from the first two colours
        and regenerates the code. A missing percentage list counts as
        empty. */
    /** The page shows the reply `data`: its palette and percentages (a
        missing list is empty), one swatch per colour, the panel texts, the
        gradient and the export code in the current format. */
    predicate ShowsPalette(data: PaletteData)
      reads this
    {
      colors == data.colors && percentages == data.percentages.GetOr([]) &&
      grid == Swatches(data.colors, percentages) &&
      details == Some(Details(data.average, data.usage, data.contrast)) &&
      gradient == Some(GradientText(data.colors)) &&
      codeOutput == CodeText(data.colors, format)
    }

    method UpdateUI(data: PaletteData)
      modifies this
      ensures ShowsPalette(data)
      ensures format == old(format) && screen == old(screen)
    {
      var cs, ps := data.colors, data.percentages.GetOr([]);
      var boxes := BuildSwatches(cs, ps);
      colors := cs;
      percentages := ps;
      grid := boxes;
      details := Some(Details(data.average, data.usage, data.contrast));
      gradient := Some(GradientText(data.colors));
      GenerateCode();
    }

    /** A reply to `/analyze` is applied only when it reports success and
        carries data; any other reply changes nothing. Replies are applied
        whenever they arrive, however many uploads were sent. */
    method ReceiveReply(success: bool, data: Option<PaletteData>)
      modifies this
      ensures success && data.Some? ==> ShowsPalette(data.value)
      ensures !(success && data.Some?) ==>
        colors == old(colors) && percentages == old(percentages) && codeOutput == old(codeOutput) &&
        grid == old(grid) && details == old(details) && gradient == old(gradient)
      ensures format == old(format) && screen == old(screen)
    {
      if success && data.Some? {
        UpdateUI(data.value);
      }
    }

    /** `downloadPaletteImage`: with no palette, only a toast; otherwise the
        image file with one labelled band per colour, and a toast. */
    method DownloadPaletteImage() returns (toast: string, image: Option<PaletteImage>)
      ensures colors == [] <==> image.None?
      ensures colors == [] ==> toast == EmptyPaletteToast
      ensures colors != [] ==>
        toast == DownloadedToast && image == Some(PaletteImage(PaletteFileName, BandLabels(colors, percentages)))
    {
      if |colors| == 0 {
        return EmptyPaletteToast, None;
      }
      var labels: seq<BandLabel> := [];
      var i := 0;
      while i < |colors|
        invariant 0 <= i <= |colors|
        invariant labels == BandLabels(colors[..i], percentages)
      {
        assert colors[..i + 1][..i] == colors[..i];
        var percent := if i < |percentages| then Some(percentages[i] + "%") else None;
        labels := labels + [BandLabel(colors[i], percent)];
        i := i + 1;
      }
      assert colors[..i] == colors;
      return DownloadedToast, Some(PaletteImage(PaletteFileName, labels));
    }
  }

  /** The `+=` loop of generateCode for a block format. */
  method BuildBlock(style: Style, cs: seq<string>) returns (code: string)
    ensures code == Block(style, cs)
  {
    var head := Header(style) + "\n";
    code := head;
    var i := 0;
    assert cs[..0] == [];
    while i < |cs|
      invariant 0 <= i <= |cs|
      invariant code == head + Terminated(StyleLines(style, cs[..i]))
    {
      BlockStep(style, cs, i, head);
      code := code + StyleLine(style, i + 1, cs[i]) + "\n";
      i := i + 1;
    }
    assert cs[..i] == cs;
    code := code + "}";
  }

  lemma BlockStep(style: Style, cs: seq<string>, i: nat, head: string)
    requires i < |cs|
    ensures head + Terminated(StyleLines(style, cs[..i + 1])) ==
      head + Terminated(StyleLines(style, cs[..i])) + StyleLine(style, i + 1, cs[i]) + "\n"
  {
    var lines := StyleLines(style, cs[..i + 1]);
    assert cs[..i + 1][..i] == cs[..i];
    assert lines[..|lines| - 1] == StyleLines(style, cs[..i]);
    TerminatedSnoc(head, StyleLines(style, cs[..i]), StyleLine(style, i + 1, cs[i]));
  }

  lemma TerminatedSnoc(head: string, lines: seq<string>, line: string)
    ensures head + Terminated(lines + [line]) == head + Terminated(lines) + line + "\n"
  {
    assert (lines + [line])[..|lines|] == lines;
  }

  /** Choosing a tab before any palette exists changes no text, and the
      first palette that arrives afterwards is shown in that format. */
  method TabBeforePalette(data: PaletteData) returns (before: string, after: string)
    ensures before == "Upload an image..."
    ensures after == CodeText(data.colors, "tailwind")
  {
    var view := new ViewState(UploadPromptText, []);
    view.SwitchTab("tailwind");
    before := view.codeOutput;
    view.UpdateUI(data);
    after := view.codeOutput;
  }
}
