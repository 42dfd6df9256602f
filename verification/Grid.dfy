/** Sizing the columns of a grid (gridTemplate.resolve, browser/css_values.go). Lengths are exact
    reals. */
module Grid {

  /** One column: a length and a percentage, a flexible share, and a lower bound. */
  datatype Track = Track(px: real, pct: real, fr: real, minPx: real)

  /** The columns, or the one that repeat(auto-fill, ...) repeats. */
  datatype Template = Tracks(tracks: seq<Track>) | AutoFill(auto: Track)

  const CAP := 100

  // ---------- what each column gets ----------

  predicate Flexible(t: Track) { t.fr > 0.0 }

  /** Neither flexible nor of a given size; a length of zero counts. */
  predicate Automatic(t: Track) { t.fr <= 0.0 && t.px == 0.0 && t.pct == 0.0 }

  function Max(x: real, y: real): real { if x < y then y else x }

  function Percent(pct: real, width: real): real { pct / 100.0 * width }

  /** The gaps between n columns. */
  function Gaps(n: nat, gap: real): real { gap * (n as real - 1.0) }

  /** The size of a column that is neither flexible nor automatic. */
  function FixedSize(t: Track, width: real): real {
    Max(Max(t.px + Percent(t.pct, width), t.minPx), 0.0)
  }

  function FixedSum(tracks: seq<Track>, width: real): real {
    if tracks == [] then 0.0
    else
      var t := tracks[|tracks| - 1];
      FixedSum(tracks[..|tracks| - 1], width) + if Flexible(t) || Automatic(t) then 0.0 else FixedSize(t, width)
  }

  function FrSum(tracks: seq<Track>): real {
    if tracks == [] then 0.0
    else FrSum(tracks[..|tracks| - 1]) + if Flexible(tracks[|tracks| - 1]) then tracks[|tracks| - 1].fr else 0.0
  }

  function AutoCount(tracks: seq<Track>): nat {
    if tracks == [] then 0
    else AutoCount(tracks[..|tracks| - 1]) + if Automatic(tracks[|tracks| - 1]) then 1 else 0
  }

  /** The width left for columns between the gaps. */
  function Free(n: nat, width: real, gap: real): real {
    Max(width - Gaps(n, gap), 0.0)
  }

  function Left(tracks: seq<Track>, width: real, gap: real): (r: real)
    ensures r >= 0.0
  {
    Max(Free(|tracks|, width, gap) - FixedSum(tracks, width), 0.0)
  }

  /** The share of the leftover a flexible column would have without its lower bound. */
  function Share(fr: real, left: real, frSum: real): real
    requires frSum != 0.0
  {
    left * fr / frSum
  }

  /** The width of one column, given what is left and the totals. */
  function Size(t: Track, width: real, left: real, frSum: real, autos: nat): real {
    if Flexible(t) then (if frSum > 0.0 then Max(Share(t.fr, left, frSum), t.minPx) else 0.0)
    else if Automatic(t) then (if frSum <= 0.0 && autos > 0 then left / autos as real else 0.0)
    else FixedSize(t, width)
  }

  function Sizes(tracks: seq<Track>, width: real, gap: real): (r: seq<real>)
    ensures |r| == |tracks|
  {
    seq(|tracks|, i requires 0 <= i < |tracks| =>
      Size(tracks[i], width, Left(tracks, width, gap), FrSum(tracks), AutoCount(tracks)))
  }

  /** How often repeat(auto-fill, ...) repeats. */
  function Repeats(auto: Track, width: real, gap: real): (n: nat)
    ensures 1 <= n <= CAP
  {
    var step := if auto.minPx + gap <= 0.0 then 1.0 else auto.minPx + gap;
    var n := Truncated((width + gap) / step);
    if n < 1 then 1 else if n > CAP then CAP else n
  }

  /** Go's conversion to int. */
  function Truncated(x: real): int {
    if x >= 0.0 then x.Floor else -((-x).Floor)
  }

  function Expanded(g: Template, width: real, gap: real): seq<Track> {
    match g
    case Tracks(tracks) => tracks
    case AutoFill(auto) => seq(Repeats(auto, width, gap), _ => auto)
  }

  // ---------- the loops ----------

  /** The tracks of a template for a given width. */
  method Expand(g: Template, width: real, gap: real) returns (tracks: seq<Track>)
    ensures tracks == Expanded(g, width, gap)
  {
    match g {
      case Tracks(ts) => tracks := ts;
      case AutoFill(auto) =>
        var step := auto.minPx + gap;
        if step <= 0.0 {
          step := 1.0;
        }
        var n := Truncated((width + gap) / step);
        if n < 1 {
          n := 1;
        }
        if n > CAP {
          n := CAP;
        }
        tracks := seq(n, _ => auto);
    }
  }

  /** gridTemplate.resolve. */
  method Resolve(g: Template, width: real, gap: real) returns (out: array<real>)
    ensures fresh(out) && out[..] == Sizes(Expanded(g, width, gap), width, gap)
  {
    hide FixedSum, FrSum, AutoCount, FixedSize, Repeats, Size, Expanded, Gaps;
    var tracks := Expand(g, width, gap);
    out := new real[|tracks|](_ => 0.0);
    if |tracks| == 0 {
      return;
    }
    var n := |tracks|;
    var free := width - Gaps(n, gap);
    if free < 0.0 {
      free := 0.0;
    }
    var fixed, frSum, autoN := FixedPass(tracks, out, width);
    var left := free - fixed;
    if left < 0.0 {
      left := 0.0;
    }
    SharePass(tracks, out, width, left, frSum, autoN);
    assert left == Left(tracks, width, gap);
    assert out[..] == Sizes(tracks, width, gap);
  }

  /** The first pass: the columns of a given size, and the totals. */
  method FixedPass(tracks: seq<Track>, out: array<real>, width: real) returns (fixed: real, frSum: real, autoN: nat)
    requires out.Length == |tracks| && forall j :: 0 <= j < |tracks| ==> out[j] == 0.0
    modifies out
    ensures fixed == FixedSum(tracks, width) && frSum == FrSum(tracks) && autoN == AutoCount(tracks)
    ensures forall j :: 0 <= j < |tracks| ==>
              out[j] == if Flexible(tracks[j]) || Automatic(tracks[j]) then 0.0 else FixedSize(tracks[j], width)
  {
    hide FixedSize;
    fixed, frSum, autoN := 0.0, 0.0, 0;
    for i := 0 to |tracks|
      invariant fixed == FixedSum(tracks[..i], width) && frSum == FrSum(tracks[..i]) && autoN == AutoCount(tracks[..i])
      invariant forall j :: 0 <= j < |tracks| ==>
                  out[j] == if j >= i || Flexible(tracks[j]) || Automatic(tracks[j]) then 0.0
                            else FixedSize(tracks[j], width)
    {
      var t := tracks[i];
      assert tracks[..i + 1][..i] == tracks[..i];
      if t.fr > 0.0 {
        frSum := frSum + t.fr;
      } else if t.px == 0.0 && t.pct == 0.0 {
        autoN := autoN + 1;
      } else {
        var w := FixedWidth(t, width);
        out[i] := w;
        fixed := fixed + w;
      }
    }
    assert tracks[..|tracks|] == tracks;
  }

  method FixedWidth(t: Track, width: real) returns (w: real)
    ensures w == FixedSize(t, width)
  {
    hide Percent;
    w := t.px + Percent(t.pct, width);
    if w < t.minPx {
      w := t.minPx;
    }
    if w < 0.0 {
      w := 0.0;
    }
  }

  /** The second pass: the leftover goes to the flexible columns, or else to the automatic ones. */
  method SharePass(tracks: seq<Track>, out: array<real>, width: real, left: real, frSum: real, autoN: nat)
    requires out.Length == |tracks| && frSum == FrSum(tracks) && autoN == AutoCount(tracks)
    requires forall j :: 0 <= j < |tracks| ==>
               out[j] == if Flexible(tracks[j]) || Automatic(tracks[j]) then 0.0 else FixedSize(tracks[j], width)
    modifies out
    ensures forall j :: 0 <= j < |tracks| ==> out[j] == Size(tracks[j], width, left, frSum, autoN)
  {
    hide FixedSize, FrSum, AutoCount, Share;
    if frSum > 0.0 {
      for i := 0 to |tracks|
        invariant forall j :: 0 <= j < |tracks| ==>
                    out[j] == if j < i || !Flexible(tracks[j]) then Size(tracks[j], width, left, frSum, autoN) else 0.0
      {
        var t := tracks[i];
        if t.fr > 0.0 {
          var w := Share(t.fr, left, frSum);
          if w < t.minPx {
            w := t.minPx;
          }
          out[i] := w;
        }
      }
    } else if autoN > 0 {
      var share := left / autoN as real;
      for i := 0 to |tracks|
        invariant forall j :: 0 <= j < |tracks| ==>
                    out[j] == if j < i || !Automatic(tracks[j]) then Size(tracks[j], width, left, frSum, autoN) else 0.0
      {
        var t := tracks[i];
        if t.fr <= 0.0 && t.px == 0.0 && t.pct == 0.0 {
          out[i] := share;
        }
      }
    }
  }

  // ---------- conservation ----------

  function Sum(s: seq<real>): real {
    if s == [] then 0.0 else Sum(s[..|s| - 1]) + s[|s| - 1]
  }

  /** The same as Sizes, with the totals given. */
  function SizesFor(tracks: seq<Track>, width: real, left: real, frSum: real, autos: nat): (r: seq<real>)
    ensures |r| == |tracks|
  {
    seq(|tracks|, i requires 0 <= i < |tracks| => Size(tracks[i], width, left, frSum, autos))
  }

  /** No lower bound of a flexible column is above its share. */
  predicate NoneBinds(tracks: seq<Track>, left: real, frSum: real) {
    frSum > 0.0 && forall i :: 0 <= i < |tracks| && Flexible(tracks[i]) ==>
      tracks[i].minPx <= Share(tracks[i].fr, left, frSum)
  }

  lemma ShareAdds(a: real, b: real, left: real, frSum: real)
    requires frSum > 0.0
    ensures Share(a + b, left, frSum) == Share(a, left, frSum) + Share(b, left, frSum)
    ensures Share(0.0, left, frSum) == 0.0 && Share(frSum, left, frSum) == left
  {
    assert left * (a + b) == left * a + left * b;
  }

  /** With flexible columns, the sizes add up to the fixed total and the shares, or more when a
      lower bound binds. */
  lemma {:induction false} FlexibleSum(tracks: seq<Track>, width: real, left: real, frSum: real, autos: nat)
    requires frSum > 0.0
    ensures var sum := Sum(SizesFor(tracks, width, left, frSum, autos));
            var shares := FixedSum(tracks, width) + Share(FrSum(tracks), left, frSum);
            sum >= shares && (sum == shares <==> NoneBinds(tracks, left, frSum))
  {
    hide Share, FixedSize, Automatic;
    ShareAdds(0.0, 0.0, left, frSum);
    if tracks != [] {
      var init, t := tracks[..|tracks| - 1], tracks[|tracks| - 1];
      FlexibleSum(init, width, left, frSum, autos);
      var all := SizesFor(tracks, width, left, frSum, autos);
      assert all[..|all| - 1] == SizesFor(init, width, left, frSum, autos);
      ShareAdds(FrSum(init), t.fr, left, frSum);
      assert NoneBinds(tracks, left, frSum) <==>
             NoneBinds(init, left, frSum) && (Flexible(t) ==> t.minPx <= Share(t.fr, left, frSum));
    }
  }

  function Times(n: nat, x: real): real {
    n as real * x
  }

  lemma TimesAdds(n: nat, x: real)
    ensures Times(n + 1, x) == Times(n, x) + x && Times(0, x) == 0.0
  {}

  lemma {:induction false} AutoSum(tracks: seq<Track>, width: real, left: real, autos: nat)
    requires autos > 0 && FrSum(tracks) == 0.0
    ensures Sum(SizesFor(tracks, width, left, 0.0, autos)) ==
            FixedSum(tracks, width) + Times(AutoCount(tracks), left / autos as real)
  {
    hide FixedSize, Times;
    TimesAdds(AutoCount(tracks), left / autos as real);
    if tracks != [] {
      var init, t := tracks[..|tracks| - 1], tracks[|tracks| - 1];
      FrSumNotNegative(init);
      AutoSum(init, width, left, autos);
      TimesAdds(AutoCount(init), left / autos as real);
      var all := SizesFor(tracks, width, left, 0.0, autos);
      assert all[..|all| - 1] == SizesFor(init, width, left, 0.0, autos);
    }
  }

  lemma {:induction false} FrSumNotNegative(tracks: seq<Track>)
    ensures FrSum(tracks) >= 0.0
    ensures FrSum(tracks) == 0.0 <==> forall i :: 0 <= i < |tracks| ==> !Flexible(tracks[i])
  {
    if tracks != [] {
      FrSumNotNegative(tracks[..|tracks| - 1]);
    }
  }

  /** No column is negative. */
  lemma NotNegative(tracks: seq<Track>, width: real, gap: real, i: nat)
    requires i < |tracks|
    ensures Sizes(tracks, width, gap)[i] >= 0.0
  {
    var left, frSum := Left(tracks, width, gap), FrSum(tracks);
    if Flexible(tracks[i]) && frSum > 0.0 {
      assert left * tracks[i].fr >= 0.0;
    }
  }

  /** With a flexible or automatic column, the columns fill the free width, or the fixed total if
      that is more, exactly when no lower bound of a flexible column is above its share. */
  lemma Conservation(tracks: seq<Track>, width: real, gap: real)
    requires FrSum(tracks) > 0.0 || AutoCount(tracks) > 0
    ensures var sum := Sum(Sizes(tracks, width, gap));
            var target := Max(Free(|tracks|, width, gap), FixedSum(tracks, width));
            && sum >= target
            && (sum == target <==> FrSum(tracks) == 0.0 || NoneBinds(tracks, Left(tracks, width, gap), FrSum(tracks)))
  {
    hide FixedSize, FrSum, AutoCount, Share, Free, NoneBinds, Times;
    var left, frSum, autos := Left(tracks, width, gap), FrSum(tracks), AutoCount(tracks);
    assert Sizes(tracks, width, gap) == SizesFor(tracks, width, left, frSum, autos);
    FrSumNotNegative(tracks);
    if frSum > 0.0 {
      FlexibleSum(tracks, width, left, frSum, autos);
      ShareAdds(0.0, 0.0, left, frSum);
    } else {
      AutoSum(tracks, width, left, autos);
      WholeShared(autos, left);
    }
  }

  lemma WholeShared(n: nat, x: real)
    requires n > 0
    ensures Times(n, x / n as real) == x
  {}

  // ---------- repeat(auto-fill, minmax(m, 1fr)) ----------

  function Minmax(m: real): Track { Track(0.0, 0.0, 1.0, m) }

  lemma {:induction false} AllAlike(n: nat, m: real)
    ensures var tracks := seq(n, _ => Minmax(m));
            FrSum(tracks) == n as real && forall width: real :: FixedSum(tracks, width) == 0.0
  {
    var tracks := seq(n, _ => Minmax(m));
    if n > 0 {
      assert tracks[..n - 1] == seq(n - 1, _ => Minmax(m));
      AllAlike(n - 1, m);
    }
  }

  /** The width of n columns of size m, each with a gap. */
  function Fits(n: nat, m: real, gap: real): real { n as real * (m + gap) }

  /** How many columns of at least m fit: the count is right, and below the cap one more would
      not fit. */
  lemma RepeatsFit(m: real, width: real, gap: real)
    requires 0.0 < m <= width && gap >= 0.0
    ensures var n := Repeats(Minmax(m), width, gap);
            && Fits(n, m, gap) <= width + gap
            && (n < CAP ==> Fits(n + 1, m, gap) > width + gap)
  {
    var n := Repeats(Minmax(m), width, gap);
    FloorFits(width + gap, m + gap, n);
    FloorFits(width + gap, m + gap, n + 1);
  }

  lemma FloorFits(a: real, b: real, n: int)
    requires 0.0 < b <= a
    ensures a / b >= 1.0
    ensures n as real <= a / b ==> n as real * b <= a
    ensures n as real > a / b ==> n as real * b > a
  {
    var q := a / b;
    assert q * b == a;
    if q < 1.0 { Scale(q, 1.0, b); }
    if n as real < q { Scale(n as real, q, b); }
    if n as real > q { Scale(q, n as real, b); }
  }

  lemma Scale(a: real, b: real, c: real)
    requires c > 0.0
    ensures a < b ==> a * c < b * c
  {}

  /** The width of n columns of size s with their gaps. */
  function Filled(n: nat, s: real, gap: real): real
    requires n > 0
  {
    n as real * s + (n - 1) as real * gap
  }

  /** All columns are equal and at least m, and with the gaps they fill the width exactly. */
  lemma AutoFillFits(m: real, width: real, gap: real)
    requires 0.0 < m <= width && gap >= 0.0
    ensures var g := AutoFill(Minmax(m));
            var sizes := Sizes(Expanded(g, width, gap), width, gap);
            var n := |sizes|;
            && 1 <= n <= CAP
            && (forall i, j :: 0 <= i < n && 0 <= j < n ==> sizes[i] == sizes[j])
            && (forall i :: 0 <= i < n ==> sizes[i] >= m)
            && Filled(n, sizes[0], gap) == width
            && (n < CAP ==> Filled(n + 1, m, gap) > width)
  {
    var n := Repeats(Minmax(m), width, gap);
    RepeatsFit(m, width, gap);
    hide Fits, Repeats, Filled;
    EqualShare(n, m, width, gap);
    if n < CAP { Regroup(n, m, width, gap); }
    SizesAlike(n, m, width, gap);
    hide Repeats, Sizes, Share, Free, Filled;
  }

  lemma SizesAlike(n: nat, m: real, width: real, gap: real)
    requires n > 0
    ensures var tracks := seq(n, _ => Minmax(m));
            forall i :: 0 <= i < n ==>
              Sizes(tracks, width, gap)[i] == Max(Share(1.0, Free(n, width, gap), n as real), m)
  {
    AllAlike(n, m);
    var tracks := seq(n, _ => Minmax(m));
    hide FrSum, FixedSum, Share, Free, AutoCount;
    assert FixedSum(tracks, width) == 0.0;
    assert Left(tracks, width, gap) == Free(n, width, gap);
  }

  lemma Regroup(n: nat, m: real, width: real, gap: real)
    requires Fits(n + 1, m, gap) > width + gap
    ensures Filled(n + 1, m, gap) > width
  {
    var k := n as real;
    assert (k + 1.0) * (m + gap) == (k + 1.0) * m + (k + 1.0) * gap;
    assert (k + 1.0) * gap == k * gap + gap;
  }

  /** n equal shares of what the gaps leave. */
  lemma EqualShare(n: nat, m: real, width: real, gap: real)
    requires n >= 1 && Fits(n, m, gap) <= width + gap && m > 0.0 && gap >= 0.0
    ensures var left := Free(n, width, gap);
            && Share(1.0, left, n as real) >= m
            && Filled(n, Share(1.0, left, n as real), gap) == width
  {
    var k := n as real;
    var left := width - gap * (k - 1.0);
    assert k * (m + gap) == k * m + k * gap;
    assert gap * (k - 1.0) == k * gap - gap;
    assert left >= k * m;
    assert k * m > 0.0;
    var s := left * 1.0 / k;
    assert k * s == left;
    if s < m { Scale(s, m, k); }
  }
}
