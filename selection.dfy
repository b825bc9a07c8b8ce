/** Palette selection in `process_image` (color_engine.py): the candidates
    are sorted by score, then two greedy passes keep the distinct ones, and
    the kept colours are turned into the analysis result. */
module Selection {
  import opened Strings
  import opened ColorEngine

  // ---------------------------------------------------------------------
  // Sorting by descending score

  /** Every earlier candidate scores at least as high as every later one. */
  predicate SortedByScore(s: seq<Candidate>) {
    forall i, j :: 0 <= i < j < |s| ==> s[i].score >= s[j].score
  }

  /** Inserts `x` before the first candidate that does not score higher, so
      `x` stays ahead of the equal-scoring candidates that followed it. */
  function InsertByScore(x: Candidate, s: seq<Candidate>): (r: seq<Candidate>)
    ensures multiset(r) == multiset(s) + multiset{x}
  {
    if s == [] || s[0].score <= x.score then
      [x] + s
    else
      assert s == [s[0]] + s[1..];
      [s[0]] + InsertByScore(x, s[1..])
  }

  lemma {:induction false} InsertSorted(x: Candidate, s: seq<Candidate>)
    requires SortedByScore(s)
    ensures SortedByScore(InsertByScore(x, s))
  {
    if s != [] && s[0].score > x.score {
      var rest := InsertByScore(x, s[1..]);
      InsertSorted(x, s[1..]);
      var r := [s[0]] + rest;
      forall i, j | 0 <= i < j < |r| ensures r[i].score >= r[j].score {
        if i == 0 {
          var y := r[j];
          assert y in multiset(rest);
          assert y == x || y in multiset(s[1..]);
          if y != x {
            var m :| 0 <= m < |s[1..]| && s[1..][m] == y;
            assert s[m + 1] == y;
          }
        } else {
          assert r[i] == rest[i - 1] && r[j] == rest[j - 1];
        }
      }
    }
  }

  /** `sort(key=score, reverse=True)`: a stable sort by descending score. */
  function SortByScore(s: seq<Candidate>): (r: seq<Candidate>)
    ensures SortedByScore(r)
    ensures multiset(r) == multiset(s)
  {
    if s == [] then [] else
      assert s == [s[0]] + s[1..];
      InsertSorted(s[0], SortByScore(s[1..]));
      InsertByScore(s[0], SortByScore(s[1..]))
  }

  // ---------------------------------------------------------------------
  // The greedy passes

  /** The first pass keeps a candidate whose distance to every kept colour is
      at least 35, the second pass one at distance at least 10. Distances are
      compared squared: for non-negative values `sqrt(d) < t` is `d < t * t`. */
  const FirstPassMin: real := 35.0 * 35.0
  const SecondPassMin: real := 10.0 * 10.0

  /** The squared Euclidean distance of two colours. */
  function SqDist(a: Rgb, b: Rgb): (d: real)
    ensures d >= 0.0
    ensures a == b ==> d == 0.0
  {
    (a.r - b.r) * (a.r - b.r) + (a.g - b.g) * (a.g - b.g) + (a.b - b.b) * (a.b - b.b)
  }

  /** No kept colour lies closer to `c` than the threshold. */
  predicate FarFromAll(c: Rgb, kept: seq<Candidate>, minSq: real) {
    forall j :: 0 <= j < |kept| ==> SqDist(c, kept[j].color) >= minSq
  }

  /** Every later entry is at least the threshold away from every earlier one. */
  predicate Separated(s: seq<Candidate>, minSq: real) {
    forall i, j :: 0 <= i < j < |s| ==> SqDist(s[j].color, s[i].color) >= minSq
  }

  /** One greedy pass over `cands`, starting from the list `kept` and
      stopping as soon as it holds `k` entries. */
  function Pass(cands: seq<Candidate>, kept: seq<Candidate>, k: int, minSq: real): seq<Candidate>
    decreases |cands|
  {
    if cands == [] || |kept| >= k then kept
    else if FarFromAll(cands[0].color, kept, minSq) then Pass(cands[1..], kept + [cands[0]], k, minSq)
    else Pass(cands[1..], kept, k, minSq)
  }

  /** The two-pass selection: the second pass runs only when the first one
      kept fewer than `k` colours, and it continues the first pass's list. */
  function Select(cands: seq<Candidate>, k: int): seq<Candidate>
  {
    var first := Pass(cands, [], k, FirstPassMin);
    if |first| < k then Pass(cands, first, k, SecondPassMin) else first
  }

  /** The selection loops of `process_image`, in the source's shape: the
      first pass stops checking at the first close colour, the second pass
      checks every kept colour. */
  method SelectDistinct(cands: seq<Candidate>, k: int) returns (chosen: seq<Candidate>)
    ensures chosen == Select(cands, k)
  {
    chosen := [];
    var i := 0;
    while i < |cands|
      invariant 0 <= i <= |cands|
      invariant Pass(cands, [], k, FirstPassMin) == Pass(cands[i..], chosen, k, FirstPassMin)
    {
      if |chosen| >= k { break; }
      var color := cands[i].color;
      var isDistinct := true;
      var j := 0;
      while j < |chosen|
        invariant 0 <= j <= |chosen|
        invariant isDistinct && FarFromAll(color, chosen[..j], FirstPassMin)
      {
        if SqDist(color, chosen[j].color) < FirstPassMin {
          isDistinct := false;
          break;
        }
        j := j + 1;
      }
      assert isDistinct ==> chosen[..j] == chosen;
      assert cands[i..][1..] == cands[i + 1..];
      if isDistinct { chosen := chosen + [cands[i]]; }
      i := i + 1;
    }
    ghost var first := chosen;
    if |chosen| < k {
      i := 0;
      while i < |cands|
        invariant 0 <= i <= |cands|
        invariant Pass(cands, first, k, SecondPassMin) == Pass(cands[i..], chosen, k, SecondPassMin)
      {
        if |chosen| >= k { break; }
        var color := cands[i].color;
        var isDistinct := true;
        for j := 0 to |chosen|
          invariant isDistinct == FarFromAll(color, chosen[..j], SecondPassMin)
        {
          if SqDist(color, chosen[j].color) < SecondPassMin { isDistinct := false; }
        }
        assert chosen[..|chosen|] == chosen;
        assert cands[i..][1..] == cands[i + 1..];
        if isDistinct { chosen := chosen + [cands[i]]; }
        i := i + 1;
      }
    }
  }

  // ---------------------------------------------------------------------
  // What the selection guarantees

  lemma {:induction false} PassBound(cands: seq<Candidate>, kept: seq<Candidate>, k: int, minSq: real)
    ensures |kept| >= k ==> Pass(cands, kept, k, minSq) == kept
    ensures |kept| <= k ==> |Pass(cands, kept, k, minSq)| <= k
    decreases |cands|
  {
    if cands != [] && |kept| < k {
      PassBound(cands[1..], kept + [cands[0]], k, minSq);
      PassBound(cands[1..], kept, k, minSq);
    }
  }

  /** The selection never returns more than `k` colours, and none at all
      when `k` is not positive. */
  lemma SelectAtMostK(cands: seq<Candidate>, k: int)
    ensures k <= 0 ==> Select(cands, k) == []
    ensures |Select(cands, k)| <= if k < 0 then 0 else k
  {
    PassBound(cands, [], k, FirstPassMin);
    var first := Pass(cands, [], k, FirstPassMin);
    if |first| < k {
      PassBound(cands, first, k, SecondPassMin);
    }
  }

  /** A pass keeps separation: started from a list whose colours are
      pairwise at least the threshold apart, it ends with one that is too. */
  lemma {:induction false} PassKeepsSeparated(cands: seq<Candidate>, kept: seq<Candidate>, k: int, minSq: real)
    requires Separated(kept, minSq)
    ensures Separated(Pass(cands, kept, k, minSq), minSq)
    decreases |cands|
  {
    if cands != [] && |kept| < k {
      var c := cands[0];
      if FarFromAll(c.color, kept, minSq) {
        var next := kept + [c];
        assert Separated(next, minSq) by {
          forall i, j | 0 <= i < j < |next| ensures SqDist(next[j].color, next[i].color) >= minSq {
            if j == |kept| {
              assert next[j] == c && next[i] == kept[i];
            }
          }
        }
        PassKeepsSeparated(cands[1..], next, k, minSq);
      } else {
        PassKeepsSeparated(cands[1..], kept, k, minSq);
      }
    }
  }

  /** The colours kept by the first pass are pairwise at distance at least 35. */
  lemma FirstPassSeparated(cands: seq<Candidate>, k: int)
    ensures Separated(Pass(cands, [], k, FirstPassMin), FirstPassMin)
  {
    PassKeepsSeparated(cands, [], k, FirstPassMin);
  }

  /** Every pair of selected colours is at distance at least 10. */
  lemma SelectSeparated(cands: seq<Candidate>, k: int)
    ensures Separated(Select(cands, k), SecondPassMin)
  {
    var first := Pass(cands, [], k, FirstPassMin);
    FirstPassSeparated(cands, k);
    assert Separated(first, SecondPassMin);
    if |first| < k {
      PassKeepsSeparated(cands, first, k, SecondPassMin);
    }
  }

  /** Hence no colour is selected twice. */
  lemma SelectNoRepeats(cands: seq<Candidate>, k: int)
    ensures var r := Select(cands, k);
      forall i, j :: 0 <= i < j < |r| ==> r[i].color != r[j].color
  {
    SelectSeparated(cands, k);
  }

  /** A pass extends its starting list with candidates taken from `cands`
      in their order, so a score-sorted input gives score-sorted additions. */
  lemma {:induction false} PassAppends(cands: seq<Candidate>, kept: seq<Candidate>, k: int, minSq: real)
    ensures var r := Pass(cands, kept, k, minSq);
      |kept| <= |r| && r[..|kept|] == kept &&
      (forall x :: x in r[|kept|..] ==> x in cands) &&
      (SortedByScore(cands) ==> SortedByScore(r[|kept|..]))
    decreases |cands|
  {
    if cands != [] && |kept| < k {
      var c := cands[0];
      assert SortedByScore(cands) ==> SortedByScore(cands[1..]);
      if FarFromAll(c.color, kept, minSq) {
        var next := kept + [c];
        PassAppends(cands[1..], next, k, minSq);
        var r := Pass(cands[1..], next, k, minSq);
        assert r[..|kept|] == next[..|kept|] == kept;
        assert r[|kept|..] == [c] + r[|next|..];
        if SortedByScore(cands) {
          forall x | x in r[|next|..] ensures c.score >= x.score {
            var m :| 0 <= m < |cands[1..]| && cands[1..][m] == x;
            assert cands[0] == c && cands[m + 1] == x;
          }
        }
      } else {
        PassAppends(cands[1..], kept, k, minSq);
      }
    }
  }

  /** The selection is the first pass's colours in descending score order,
      followed by the second pass's colours in descending score order; every
      selected entry is one of the candidates. */
  lemma SelectOrder(cands: seq<Candidate>, k: int)
    requires SortedByScore(cands)
    ensures var first := Pass(cands, [], k, FirstPassMin); var r := Select(cands, k);
      |first| <= |r| && r[..|first|] == first &&
      SortedByScore(first) && SortedByScore(r[|first|..]) &&
      (forall x :: x in r ==> x in cands)
  {
    var first := Pass(cands, [], k, FirstPassMin);
    PassAppends(cands, [], k, FirstPassMin);
    assert first[0..] == first;
    if |first| < k {
      PassAppends(cands, first, k, SecondPassMin);
      var r := Pass(cands, first, k, SecondPassMin);
      forall x | x in r ensures x in cands {
        var m :| 0 <= m < |r| && r[m] == x;
        if m < |first| {
          assert first[m] == x;
        } else {
          assert r[|first|..][m - |first|] == x;
        }
      }
    }
  }

  /** Once the second pass ends short of `k`, no candidate was left out that
      lies at distance 10 or more from every selected colour. */
  lemma SelectCoversCandidates(cands: seq<Candidate>, k: int)
    requires |Select(cands, k)| < k
    ensures forall i :: 0 <= i < |cands| ==> !FarFromAll(cands[i].color, Select(cands, k), SecondPassMin)
  {
    var first := Pass(cands, [], k, FirstPassMin);
    PassCovers(cands, first, k, SecondPassMin);
  }

  lemma {:induction false} PassCovers(cands: seq<Candidate>, kept: seq<Candidate>, k: int, minSq: real)
    requires minSq > 0.0
    requires |Pass(cands, kept, k, minSq)| < k
    ensures forall i :: 0 <= i < |cands| ==> !FarFromAll(cands[i].color, Pass(cands, kept, k, minSq), minSq)
    decreases |cands|
  {
    if cands != [] {
      var c := cands[0];
      var r := Pass(cands, kept, k, minSq);
      var next := if FarFromAll(c.color, kept, minSq) then kept + [c] else kept;
      assert r == Pass(cands[1..], next, k, minSq);
      PassCovers(cands[1..], next, k, minSq);
      PassAppends(cands[1..], next, k, minSq);
      assert !FarFromAll(c.color, next, minSq) by {
        if FarFromAll(c.color, kept, minSq) {
          assert next[|kept|] == c && SqDist(c.color, c.color) == 0.0;
        }
      }
      assert !FarFromAll(c.color, r, minSq) by {
        var j :| 0 <= j < |next| && SqDist(c.color, next[j].color) < minSq;
        assert r[j] == next[j];
      }
      forall i | 0 <= i < |cands| ensures !FarFromAll(cands[i].color, r, minSq) {
        if i > 0 {
          assert cands[i] == cands[1..][i - 1];
        }
      }
    }
  }

  // ---------------------------------------------------------------------
  // From the selection to the analysis result

  /** The analysis result of `process_image`, in the order of the response
      object's fields. */
  datatype Analysis = Analysis(colors: seq<string>, percentages: seq<real>, average: string,
                               usage: string, contrast: string)

  /** What `process_image` computes from the KMeans outcome (cluster centres
      and per-pixel labels), the average colour and the image size, up to the
      first exception. None stands for an exception. */
  function Process(centres: seq<Rgb>, labels: seq<int>, average: Rgb, width: int, height: int, k: int): (r: Option<Analysis>)
    ensures r.Some? <==> Scored(centres, labels).Some? && height != 0 && HexToRgb(RgbToHex(average)).Some?
  {
    var scored := Scored(centres, labels);
    if scored.None? then None else
    var chosen := Select(SortByScore(scored.value), k);
    var usage := Usage(width, height, Colours(chosen));
    var avgHex := RgbToHex(average);
    var avgRgb := HexToRgb(avgHex);
    if usage.None? || avgRgb.None? then None
    else Some(Analysis(HexColours(chosen), Percents(chosen), avgHex, usage.value, Contrast(avgRgb.value)))
  }

  function Colours(chosen: seq<Candidate>): (r: seq<Rgb>)
    ensures |r| == |chosen| && forall i :: 0 <= i < |chosen| ==> r[i] == chosen[i].color
  {
    seq(|chosen|, i requires 0 <= i < |chosen| => chosen[i].color)
  }

  function HexColours(chosen: seq<Candidate>): (r: seq<string>)
    ensures |r| == |chosen| && forall i :: 0 <= i < |chosen| ==> r[i] == RgbToHex(chosen[i].color)
  {
    seq(|chosen|, i requires 0 <= i < |chosen| => RgbToHex(chosen[i].color))
  }

  function Percents(chosen: seq<Candidate>): (r: seq<real>)
    ensures |r| == |chosen| && forall i :: 0 <= i < |chosen| ==> r[i] == chosen[i].percent
  {
    seq(|chosen|, i requires 0 <= i < |chosen| => chosen[i].percent)
  }

  /** `process_image` after the KMeans fit: score, sort, select, format. */
  method ProcessImage(centres: seq<Rgb>, labels: seq<int>, average: Rgb, width: int, height: int, k: int)
    returns (r: Option<Analysis>)
    ensures r == Process(centres, labels, average, width, height, k)
  {
    var scored := ScoreCandidates(centres, labels);
    if scored.None? { return None; }
    var sorted := SortByScore(scored.value);
    var chosen := SelectDistinct(sorted, k);
    var hexColors := HexColours(chosen);
    var percentages := Percents(chosen);
    var avgHex := RgbToHex(average);
    var usage := SmartUsage(width, height, Colours(chosen));
    if usage.None? { return None; }
    var avgRgb := HexToRgb(avgHex);
    if avgRgb.None? { return None; }
    var contrastText := Contrast(avgRgb.value);
    return Some(Analysis(hexColors, percentages, avgHex, usage.value, contrastText));
  }

  /** The result's colours and percentages are index-aligned with each other
      and with the selection, and there are at most `k` of them. */
  lemma ProcessAligned(centres: seq<Rgb>, labels: seq<int>, average: Rgb, width: int, height: int, k: int)
    requires Process(centres, labels, average, width, height, k).Some?
    ensures var a := Process(centres, labels, average, width, height, k).value;
      var chosen := Select(SortByScore(Scored(centres, labels).value), k);
      |a.colors| == |a.percentages| == |chosen| &&
      |a.colors| <= (if k < 0 then 0 else k) &&
      (forall i :: 0 <= i < |chosen| ==>
         a.colors[i] == RgbToHex(chosen[i].color) && a.percentages[i] == chosen[i].percent)
  {
    SelectAtMostK(SortByScore(Scored(centres, labels).value), k);
  }

  /** A non-zero height, an average colour with channels in 0..255 and at
      least one labelled pixel (when there are centres) rule out every
      exception: the result is then always produced. */
  lemma ProcessSucceeds(centres: seq<Rgb>, labels: seq<int>, average: Rgb, width: int, height: int, k: int)
    requires InByteRange(average) && height != 0 && (|centres| == 0 || |labels| > 0)
    ensures Process(centres, labels, average, width, height, k).Some?
  {
    var scored := Scored(centres, labels);
    var r, g, b := Trunc(average.r), Trunc(average.g), Trunc(average.b);
    var c := Rgb(r as real, g as real, b as real);
    assert Trunc(c.r) == r && Trunc(c.g) == g && Trunc(c.b) == b;
    assert RgbToHex(average) == RgbToHex(c);
    HexRoundTrip(r, g, b);
  }
}
