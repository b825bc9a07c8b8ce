/** The colour helpers of the analysis service (color_engine.py): hex
    formatting and parsing, saturation and brightness, the usage suggestion,
    the contrast rule and the scoring of cluster centres. */
module ColorEngine {
  import opened Strings

  /** A colour as three channel values. Cluster centres and average colours
      are fractional, so the channels are reals. */
  datatype Rgb = Rgb(r: real, g: real, b: real)

  /** The integer triple that `hex_to_rgb` returns. */
  datatype IntRgb = IntRgb(r: int, g: int, b: int)

  predicate InByteRange(c: Rgb) {
    0.0 <= c.r < 256.0 && 0.0 <= c.g < 256.0 && 0.0 <= c.b < 256.0
  }

  predicate IsLowerHexDigit(c: char) { '0' <= c <= '9' || 'a' <= c <= 'f' }

  // ---------------------------------------------------------------------
  // rgb_to_hex

  /** Python's `int()` applied to a float: truncation toward zero. */
  function Trunc(x: real): (n: int)
    ensures x >= 0.0 ==> 0 <= n && n as real <= x < n as real + 1.0
    ensures x < 0.0 ==> n <= 0 && n as real - 1.0 < x <= n as real
  {
    if x >= 0.0 then x.Floor else -((-x).Floor)
  }

  /** The `02x` format of a number: lower-case hexadecimal padded with zeros to two
      characters; a negative number keeps its minus sign, which counts
      towards the width. */
  function Hex02(n: int): (s: string)
    ensures |s| >= 2
    ensures n < 0 <==> s[0] == '-'
  {
    if n < 0 then "-" + NatToHex(-n)
    else
      var d := NatToHex(n);
      if |d| < 2 then "0" + d else d
  }

  /** For a byte, the `02x` format is exactly the two hexadecimal digits of its value. */
  lemma Hex02Byte(n: int)
    requires 0 <= n < 256
    ensures Hex02(n) == [LowerHexChar(n / 16), LowerHexChar(n % 16)]
  {
    if n < 16 {
      assert NatToHex(n) == [LowerHexChar(n)];
    } else {
      var hi := n / 16;
      assert NatToHex(hi) == [LowerHexChar(hi)];
    }
  }

  /** A byte's `02x` format as two lower-case digits with their values. */
  lemma Hex02Digits(n: int)
    requires 0 <= n < 256
    ensures var h := Hex02(n);
      |h| == 2 && IsLowerHexDigit(h[0]) && IsLowerHexDigit(h[1]) &&
      IsHexDigit(h[0]) && IsHexDigit(h[1]) &&
      HexDigitValue(h[0]) == n / 16 && HexDigitValue(h[1]) == n % 16
  {
    Hex02Byte(n);
  }

  /** `rgb_to_hex`: `#` and each channel, truncated, in the `02x` format. */
  function RgbToHex(c: Rgb): (s: string)
    ensures |s| >= 7 && s[0] == '#'
  {
    "#" + Hex02(Trunc(c.r)) + Hex02(Trunc(c.g)) + Hex02(Trunc(c.b))
  }

  /** For channels in 0..255 (fractions are truncated), rgb_to_hex gives `#`
      followed by exactly six lower-case hexadecimal digits, two per channel
      in r, g, b order. */
  lemma RgbToHexShape(c: Rgb)
    requires InByteRange(c)
    ensures var s := RgbToHex(c);
      |s| == 7 && s[0] == '#' &&
      (forall i :: 1 <= i < 7 ==> IsLowerHexDigit(s[i])) &&
      s[1..3] == Hex02(Trunc(c.r)) && s[3..5] == Hex02(Trunc(c.g)) && s[5..] == Hex02(Trunc(c.b))
  {
    var hr, hg, hb := Hex02(Trunc(c.r)), Hex02(Trunc(c.g)), Hex02(Trunc(c.b));
    Hex02Digits(Trunc(c.r));
    Hex02Digits(Trunc(c.g));
    Hex02Digits(Trunc(c.b));
    HashPairs(hr, hg, hb);
  }

  /** The layout of `#` followed by three two-character pieces. */
  lemma HashPairs(x: string, y: string, z: string)
    requires |x| == 2 && |y| == 2 && |z| == 2
    ensures var s := "#" + x + y + z;
      |s| == 7 && s[0] == '#' && s[1..] == x + y + z &&
      s[1..3] == x && s[3..5] == y && s[5..] == z &&
      s[1] == x[0] && s[2] == x[1] && s[3] == y[0] && s[4] == y[1] && s[5] == z[0] && s[6] == z[1]
  {
  }

  // ---------------------------------------------------------------------
  // hex_to_rgb

  /** Python's slice `h[i:i+2]`, clamped to the string. */
  function Slice2(h: string, i: nat): (t: string)
    ensures |t| <= 2
  {
    if i >= |h| then "" else if i + 2 <= |h| then h[i..i + 2] else h[i..]
  }

  /** `int(t, 16)` for the slices of at most two characters that
      `hex_to_rgb` passes: surrounding whitespace is dropped, one sign is
      allowed, and what remains must be hexadecimal digits. (A `0x` prefix or
      an underscore cannot form a valid literal in two characters.) None
      stands for the ValueError. */
  function ParseHexSlice(t: string): (r: Option<int>)
    requires |t| <= 2
    ensures t == [] ==> r.None?
    ensures r.Some? ==> -16 < r.value < 256
  {
    var u := Strip(t, IntWhitespace);
    SmallHexValue(u);
    if u == [] then None
    else if u[0] == '+' || u[0] == '-' then
      if |u| == 2 && IsHexDigit(u[1]) then
        var d: int := HexDigitValue(u[1]);
        Some(if u[0] == '-' then -d else d)
      else None
    else if forall i :: 0 <= i < |u| ==> IsHexDigit(u[i]) then
      Some(HexValue(u))
    else None
  }

  lemma SmallHexValue(u: string)
    ensures |u| <= 2 && (forall i :: 0 <= i < |u| ==> IsHexDigit(u[i])) ==> HexValue(u) < 256
  {
    if |u| == 2 && (forall i :: 0 <= i < |u| ==> IsHexDigit(u[i])) {
      assert u[..1][..0] == [];
    }
  }

  /** `int()` does not skip an information separator (U+001C to U+001F)
      beside a digit, although `str.strip()` would remove it. */
  lemma SeparatorNotSkipped(sep: char, d: char)
    requires '\U{1C}' <= sep <= '\U{1F}' && IsHexDigit(d)
    ensures ParseHexSlice([sep, d]).None? && ParseHexSlice([d, sep]).None?
  {
  }

  /** Two hexadecimal digits read as one byte, the first digit high. */
  lemma ParseHexPair(t: string)
    requires |t| == 2 && IsHexDigit(t[0]) && IsHexDigit(t[1])
    ensures ParseHexSlice(t) == Some(16 * HexDigitValue(t[0]) + HexDigitValue(t[1]))
  {
    assert t[0] !in IntWhitespace && t[1] !in IntWhitespace;
    StripKeeps(t, IntWhitespace);
    assert t[0] != '+' && t[0] != '-';
    assert t[..1][..0] == [];
    assert HexValue(t[..1]) == HexDigitValue(t[0]);
  }

  /** `hex_to_rgb`: drop the leading `#` characters and read the pairs of
      characters at offsets 0, 2 and 4 as base-16 integers; anything after
      offset 6 is ignored. None stands for the ValueError. */
  function HexToRgb(code: string): (r: Option<IntRgb>)
    ensures |StripStart(code, {'#'})| < 5 ==> r.None?
  {
    var h := StripStart(code, {'#'});
    var r := ParseHexSlice(Slice2(h, 0));
    var g := ParseHexSlice(Slice2(h, 2));
    var b := ParseHexSlice(Slice2(h, 4));
    if r.Some? && g.Some? && b.Some? then Some(IntRgb(r.value, g.value, b.value)) else None
  }

  /** hex_to_rgb undoes rgb_to_hex on every integer colour in 0..255. */
  lemma HexRoundTrip(r: int, g: int, b: int)
    requires 0 <= r < 256 && 0 <= g < 256 && 0 <= b < 256
    ensures HexToRgb(RgbToHex(Rgb(r as real, g as real, b as real))) == Some(IntRgb(r, g, b))
  {
    var c := Rgb(r as real, g as real, b as real);
    assert Trunc(c.r) == r && Trunc(c.g) == g && Trunc(c.b) == b;
    var hr, hg, hb := Hex02(r), Hex02(g), Hex02(b);
    Hex02Digits(r);
    Hex02Digits(g);
    Hex02Digits(b);
    assert RgbToHex(c) == "#" + hr + hg + hb;
    HashPairs(hr, hg, hb);
    DropHash("#" + hr + hg + hb);
    PairSlices(hr, hg, hb);
    ByteDigits(r);
    ByteDigits(g);
    ByteDigits(b);
  }

  /** A single leading `#` is what hex_to_rgb strips. */
  lemma DropHash(s: string)
    requires |s| >= 2 && s[0] == '#' && s[1] != '#'
    ensures StripStart(s, {'#'}) == s[1..]
  {
    assert SkipForward(s, {'#'}, 1) == 1;
  }

  /** The slices hex_to_rgb takes of six characters are the three pairs. */
  lemma PairSlices(x: string, y: string, z: string)
    requires |x| == 2 && |y| == 2 && |z| == 2
    ensures Slice2(x + y + z, 0) == x && Slice2(x + y + z, 2) == y && Slice2(x + y + z, 4) == z
  {
    var h := x + y + z;
    assert h[0..2] == x && h[2..4] == y && h[4..6] == z;
  }

  lemma ByteDigits(n: int)
    requires 0 <= n < 256
    ensures ParseHexSlice(Hex02(n)) == Some(n)
  {
    Hex02Digits(n);
    var s := Hex02(n);
    ParseHexPair(s);
  }

  // ---------------------------------------------------------------------
  // Saturation, brightness and the usage suggestion

  function Max3(a: real, b: real, c: real): (m: real)
    ensures m >= a && m >= b && m >= c && (m == a || m == b || m == c)
  {
    if a >= b && a >= c then a else if b >= c then b else c
  }

  function Min3(a: real, b: real, c: real): (m: real)
    ensures m <= a && m <= b && m <= c && (m == a || m == b || m == c)
  {
    if a <= b && a <= c then a else if b <= c then b else c
  }

  /** The HSV saturation of a colour, in percent (0 for black). */
  function Saturation(c: Rgb): (s: real)
    ensures 0.0 <= c.r && 0.0 <= c.g && 0.0 <= c.b ==> 0.0 <= s <= 100.0
  {
    var mx := Max3(c.r, c.g, c.b);
    var mn := Min3(c.r, c.g, c.b);
    if mx == 0.0 then 0.0
    else
      SaturationBound(mx, mn);
      (mx - mn) / mx * 100.0
  }

  lemma SaturationBound(mx: real, mn: real)
    requires mx != 0.0
    ensures 0.0 <= mn <= mx ==> 0.0 <= (mx - mn) / mx * 100.0 <= 100.0
  {
    if 0.0 <= mn <= mx {
      var q := (mx - mn) / mx;
      assert q * mx == mx - mn;
      assert 0.0 <= q <= 1.0;
    }
  }

  /** The HSV value (brightness) of a colour, in percent of 255. */
  function Brightness(c: Rgb): (v: real)
    ensures 0.0 <= c.r && 0.0 <= c.g && 0.0 <= c.b ==> 0.0 <= v
    ensures c.r <= 255.0 && c.g <= 255.0 && c.b <= 255.0 ==> v <= 100.0
  {
    Max3(c.r, c.g, c.b) / 255.0 * 100.0
  }

  datatype Vibe = Moody | Vibrant | Minimal | Balanced

  /** The vibe classification: darkness is checked first, so a dark palette is
      Moody whatever its saturation. */
  function VibeOf(avgSat: real, avgBright: real): (v: Vibe)
    ensures v == Moody <==> avgBright < 40.0
    ensures v == Vibrant <==> avgBright >= 40.0 && avgSat > 50.0
    ensures v == Minimal <==> avgBright >= 40.0 && avgSat < 10.0
    ensures v == Balanced <==> avgBright >= 40.0 && 10.0 <= avgSat <= 50.0
  {
    if avgBright < 40.0 then Moody
    else if avgSat > 50.0 then Vibrant
    else if avgSat < 10.0 then Minimal
    else Balanced
  }

  const ProductAd := "Product Ad / Promo \U{1F6CD}\U{FE0F}"
  const AlbumCover := "Album Cover / Art \U{1F3A8}"
  const InstagramPost := "Instagram Post \U{1F7E6}"
  const ViralReels := "Viral Reels / TikTok \U{26A1}"
  const Wallpaper := "Wallpaper / Lockscreen \U{1F512}"
  const InstagramStory := "Instagram Story \U{1F4F8}"
  const WebsiteHero := "Website Hero / Header \U{1F4BB}"
  const YouTubeThumbnail := "YouTube Thumbnail \U{1F4FA}"
  const GeneralUsage := "General Usage \U{1F5BC}\U{FE0F}"

  /** The usage table of `get_smart_usage` for an aspect ratio and a vibe. */
  function UsageForRatio(ratio: real, vibe: Vibe): (u: string)
    ensures u != GeneralUsage
  {
    if 0.8 <= ratio <= 1.2 then
      if vibe == Vibrant then ProductAd
      else if vibe == Moody then AlbumCover
      else InstagramPost
    else if ratio < 0.8 then
      if vibe == Vibrant then ViralReels
      else if vibe == Moody then Wallpaper
      else InstagramStory
    else if ratio > 1.2 then
      if vibe == Minimal then WebsiteHero
      else YouTubeThumbnail
    else GeneralUsage
  }

  function Sum(xs: seq<real>): real
  {
    if xs == [] then 0.0 else Sum(xs[..|xs| - 1]) + xs[|xs| - 1]
  }

  /** `sum(xs) / len(xs) if xs else 0`. */
  function Mean(xs: seq<real>): real
  {
    if xs == [] then 0.0 else Sum(xs) / |xs| as real
  }

  function Saturations(cs: seq<Rgb>): (r: seq<real>)
    ensures |r| == |cs| && forall i :: 0 <= i < |cs| ==> r[i] == Saturation(cs[i])
  {
    seq(|cs|, i requires 0 <= i < |cs| => Saturation(cs[i]))
  }

  function Brightnesses(cs: seq<Rgb>): (r: seq<real>)
    ensures |r| == |cs| && forall i :: 0 <= i < |cs| ==> r[i] == Brightness(cs[i])
  {
    seq(|cs|, i requires 0 <= i < |cs| => Brightness(cs[i]))
  }

  /** The (at most three) leading colours `get_smart_usage` looks at. */
  function Leading(cs: seq<Rgb>): (r: seq<Rgb>)
    ensures |r| <= 3 && |r| <= |cs| && r == cs[..|r|]
    ensures |cs| >= 3 ==> |r| == 3
    ensures |cs| < 3 ==> r == cs
  {
    if |cs| <= 3 then cs else cs[..3]
  }

  /** What `get_smart_usage(width, height, colours)` returns; None stands
      for the ZeroDivisionError of a zero height. */
  function Usage(width: int, height: int, cs: seq<Rgb>): (r: Option<string>)
    ensures r.None? <==> height == 0
    ensures r != Some(GeneralUsage)
  {
    var lead := Leading(cs);
    var vibe := VibeOf(Mean(Saturations(lead)), Mean(Brightnesses(lead)));
    if height == 0 then None
    else Some(UsageForRatio(width as real / height as real, vibe))
  }

  /** `get_smart_usage`: the two score lists are built by a loop over the
      leading three colours, then averaged. */
  method SmartUsage(width: int, height: int, cs: seq<Rgb>) returns (usage: Option<string>)
    ensures usage == Usage(width, height, cs)
  {
    var satScores: seq<real> := [];
    var brightScores: seq<real> := [];
    var lead := Leading(cs);
    for i := 0 to |lead|
      invariant satScores == Saturations(lead[..i])
      invariant brightScores == Brightnesses(lead[..i])
    {
      satScores := satScores + [Saturation(lead[i])];
      brightScores := brightScores + [Brightness(lead[i])];
    }
    assert lead[..|lead|] == lead;
    var avgSat := if |satScores| > 0 then Sum(satScores) / |satScores| as real else 0.0;
    var avgBright := if |brightScores| > 0 then Sum(brightScores) / |brightScores| as real else 0.0;
    var vibe := VibeOf(avgSat, avgBright);
    if height == 0 {
      return None;
    }
    var ratio := width as real / height as real;
    if 0.8 <= ratio <= 1.2 {
      if vibe == Vibrant { return Some(ProductAd); }
      if vibe == Moody { return Some(AlbumCover); }
      return Some(InstagramPost);
    } else if ratio < 0.8 {
      if vibe == Vibrant { return Some(ViralReels); }
      if vibe == Moody { return Some(Wallpaper); }
      return Some(InstagramStory);
    } else if ratio > 1.2 {
      if vibe == Minimal { return Some(WebsiteHero); }
      return Some(YouTubeThumbnail);
    }
    return Some(GeneralUsage);
  }

  /** With no colours both averages are 0, so the vibe is Moody: a square
      image is an album cover, a tall one a wallpaper, a wide one a YouTube
      thumbnail. */
  lemma EmptyPaletteIsMoody(width: int, height: int)
    requires height != 0
    ensures var ratio := width as real / height as real;
      Usage(width, height, []) ==
        Some(if 0.8 <= ratio <= 1.2 then AlbumCover
             else if ratio < 0.8 then Wallpaper
             else YouTubeThumbnail)
  {
    assert Leading([]) == [];
    assert Mean(Brightnesses([])) == 0.0;
  }

  // ---------------------------------------------------------------------
  // Contrast

  /** The contrast suggestion for the average colour: white text when its
      weighted luminance 0.299 r + 0.587 g + 0.114 b is below 128. */
  function Contrast(c: IntRgb): (text: string)
    ensures text == "White Text" <==> 299 * c.r + 587 * c.g + 114 * c.b < 128000
    ensures text == "Black Text" <==> 299 * c.r + 587 * c.g + 114 * c.b >= 128000
  {
    var luminance := 0.299 * c.r as real + 0.587 * c.g as real + 0.114 * c.b as real;
    if luminance < 128.0 then "White Text" else "Black Text"
  }

  /** Lightening any channel never turns black text into white text. */
  lemma ContrastMonotone(c: IntRgb, d: IntRgb)
    requires c.r <= d.r && c.g <= d.g && c.b <= d.b
    requires Contrast(c) == "Black Text"
    ensures Contrast(d) == "Black Text"
  {
  }

  // ---------------------------------------------------------------------
  // Scoring the cluster centres

  /** A cluster centre with its score and its share of the pixels. */
  datatype Candidate = Candidate(score: real, color: Rgb, percent: real)

  /** The score of a centre: saturation counts 2.5 times, brightness once,
      and a near-grey mid-tone loses 20 points. */
  function Score(c: Rgb): (score: real)
    ensures score <= 2.5 * Saturation(c) + Brightness(c)
    ensures score < 2.5 * Saturation(c) + Brightness(c) <==>
      Saturation(c) < 5.0 && 20.0 < Brightness(c) < 90.0
  {
    var s := Saturation(c);
    var v := Brightness(c);
    var score := s * 2.5 + v * 1.0;
    if s < 5.0 && 20.0 < v < 90.0 then score - 20.0 else score
  }

  /** For channels in 0..255 a score lies in 0..350: the grey penalty
      applies only above brightness 20, so it never makes a score negative. */
  lemma ScoreBounds(c: Rgb)
    requires 0.0 <= c.r <= 255.0 && 0.0 <= c.g <= 255.0 && 0.0 <= c.b <= 255.0
    ensures 0.0 <= Score(c) <= 350.0
  {
  }

  /** `Counter(labels)[x]`: how many pixels carry label `x`. */
  function Count(labels: seq<int>, x: int): (n: nat)
    ensures n <= |labels|
  {
    if labels == [] then 0
    else Count(labels[..|labels| - 1], x) + (if labels[|labels| - 1] == x then 1 else 0)
  }

  /** The share of the pixels labelled `i`, in percent. */
  function Percent(labels: seq<int>, i: int): (p: real)
    requires |labels| > 0
    ensures 0.0 <= p <= 100.0
  {
    var n := Count(labels, i);
    ShareAtMostOne(n, |labels|);
    n as real / |labels| as real * 100.0
  }

  lemma ShareAtMostOne(n: nat, total: nat)
    requires n <= total && total > 0
    ensures 0.0 <= n as real / total as real <= 1.0
  {
    var q := n as real / total as real;
    assert q * total as real == n as real;
  }

  /** The scored candidate list of `process_image`, one entry per centre in
      centre order; None stands for the ZeroDivisionError raised when there
      is a centre but no pixel. */
  function Scored(centres: seq<Rgb>, labels: seq<int>): (r: Option<seq<Candidate>>)
    ensures r.None? <==> |centres| > 0 && |labels| == 0
    ensures r.Some? ==> |r.value| == |centres|
    ensures r.Some? ==> forall i :: 0 <= i < |centres| ==>
      r.value[i].color == centres[i] && r.value[i].score == Score(centres[i])
  {
    if |centres| > 0 && |labels| == 0 then None
    else Some(seq(|centres|, i requires 0 <= i < |centres| =>
                Candidate(Score(centres[i]), centres[i], Percent(labels, i))))
  }

  /** The scoring loop of `process_image`. */
  method ScoreCandidates(centres: seq<Rgb>, labels: seq<int>) returns (r: Option<seq<Candidate>>)
    ensures r == Scored(centres, labels)
  {
    var scored: seq<Candidate> := [];
    var totalPixels := |labels|;
    for i := 0 to |centres|
      invariant |scored| == i
      invariant totalPixels > 0 || i == 0
      invariant forall j :: 0 <= j < i ==>
        scored[j] == Candidate(Score(centres[j]), centres[j], Percent(labels, j))
    {
      var color := centres[i];
      var score := Score(color);
      if totalPixels == 0 {
        return None;
      }
      var percent := Count(labels, i) as real / totalPixels as real * 100.0;
      scored := scored + [Candidate(score, color, percent)];
    }
    assert scored == Scored(centres, labels).value;
    return Some(scored);
  }

  /** The counts of labels 0..n-1 summed. */
  function CountsBelow(labels: seq<int>, n: nat): nat
  {
    if n == 0 then 0 else CountsBelow(labels, n - 1) + Count(labels, n - 1)
  }

  lemma {:induction false} CountsBelowAll(labels: seq<int>, n: nat)
    requires forall i :: 0 <= i < |labels| ==> 0 <= labels[i] < n
    ensures CountsBelow(labels, n) == |labels|
  {
    if labels == [] {
      CountsBelowNone(n);
    } else {
      var init := labels[..|labels| - 1];
      assert forall i :: 0 <= i < |init| ==> init[i] == labels[i];
      assert 0 <= labels[|labels| - 1] < n;
      CountsBelowAll(init, n);
      CountsBelowStep(labels, n);
    }
  }

  lemma {:induction false} CountsBelowNone(n: nat)
    ensures CountsBelow([], n) == 0
  {
    if n > 0 {
      CountsBelowNone(n - 1);
    }
  }

  lemma {:induction false} CountsBelowStep(labels: seq<int>, n: nat)
    requires labels != []
    ensures CountsBelow(labels, n) ==
      CountsBelow(labels[..|labels| - 1], n) + (if 0 <= labels[|labels| - 1] < n then 1 else 0)
  {
    if n > 0 {
      CountsBelowStep(labels, n - 1);
      var init := labels[..|labels| - 1];
      assert Count(labels, n - 1) == Count(init, n - 1) + (if labels[|labels| - 1] == n - 1 then 1 else 0);
    }
  }

  /** The sum of the percentages of the first n candidates. */
  function PercentsBelow(cs: seq<Candidate>, n: nat): real
    requires n <= |cs|
  {
    if n == 0 then 0.0 else PercentsBelow(cs, n - 1) + cs[n - 1].percent
  }

  /** When every pixel carries the label of one of the centres, the
      candidates' percentages add up to 100. */
  lemma PercentsSumTo100(centres: seq<Rgb>, labels: seq<int>)
    requires |labels| > 0
    requires forall i :: 0 <= i < |labels| ==> 0 <= labels[i] < |centres|
    ensures Scored(centres, labels).Some?
    ensures PercentsBelow(Scored(centres, labels).value, |centres|) == 100.0
  {
    PercentsBelowCounts(centres, labels, |centres|);
    CountsBelowAll(labels, |centres|);
    WholeShare(|labels| as real);
  }

  lemma WholeShare(total: real)
    requires total > 0.0
    ensures total / total * 100.0 == 100.0
  {
  }

  lemma ShareAdd(a: real, b: real, total: real)
    requires total > 0.0
    ensures a / total * 100.0 + b / total * 100.0 == (a + b) / total * 100.0
  {
  }

  lemma {:induction false} PercentsBelowCounts(centres: seq<Rgb>, labels: seq<int>, n: nat)
    requires |labels| > 0 && n <= |centres|
    ensures Scored(centres, labels).Some?
    ensures PercentsBelow(Scored(centres, labels).value, n) ==
      CountsBelow(labels, n) as real / |labels| as real * 100.0
  {
    if n > 0 {
      PercentsBelowCounts(centres, labels, n - 1);
      var cs := Scored(centres, labels).value;
      var total := |labels| as real;
      var a := CountsBelow(labels, n - 1) as real;
      var b := Count(labels, n - 1) as real;
      assert cs[n - 1].percent == b / total * 100.0;
      ShareAdd(a, b, total);
    }
  }
}
