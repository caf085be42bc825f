/** The integer arithmetic of draw_icon: the icon's size from the panel's
    icon size, and the width of the filled part of the battery from the
    level. Panel sizes are small, so int overflow is not modelled. */
module Geometry {

  /** The narrowest icon drawn. */
  const MinWidth := 36

  /** The lowest height the first clamp allows. */
  const MinHeight := 18

  /** Margins left and right of the fill track. */
  const TrackMargin := 12

  /** The level at and above which the track is drawn full. */
  const FullLevel := 97

  /** The icon width for a panel icon size: never below 36. */
  function Width(ic: int): (w: int)
    ensures w >= MinWidth && w >= ic
    ensures ic >= MinWidth ==> w == ic
    ensures ic < MinWidth ==> w == MinWidth
  {
    if ic < MinWidth then MinWidth else ic
  }

  /** The height before the last clamp: 10/36 of the width, doubled, and at
      least 18. The divisions are on positive values, where C's and Dafny's
      agree. */
  function EvenHeight(ic: int): (h: int)
    ensures h % 2 == 0 && h >= 20
    ensures h * 18 <= Width(ic) * 10 < h * 18 + 36
  {
    var h := ((Width(ic) * 10) / 36) * 2;
    if h < MinHeight then MinHeight else h
  }

  /** The icon height: the even height, unless that does not fit below the
      panel icon size, in which case two less than the icon size. */
  function Height(ic: int): (h: int)
    ensures h < ic
    ensures h < Width(ic)
    ensures EvenHeight(ic) < ic ==> h == EvenHeight(ic)
    ensures EvenHeight(ic) >= ic ==> h == ic - 2
  {
    var h := EvenHeight(ic);
    if h >= ic then ic - 2 else h
  }

  /** The width of the track the fill runs along: at least 24. */
  function Track(ic: int): (t: int)
    ensures t >= MinWidth - TrackMargin
  {
    Width(ic) - TrackMargin
  }

  /** The fill width for a level: nothing below 0, the whole track above
      97, and otherwise the track scaled by level/97 and rounded down, with
      a clamp to the track. The rounding is stated without division: f is
      the largest width with f * 97 not above track * level. */
  function Fill(ic: int, lev: int): (f: int)
    ensures 0 <= f <= Track(ic)
    ensures lev <= 0 ==> f == 0
    ensures lev >= FullLevel ==> f == Track(ic)
    ensures 0 <= lev <= FullLevel ==> f * FullLevel <= Track(ic) * lev < (f + 1) * FullLevel
  {
    var t := Track(ic);
    if lev < 0 then 0
    else if lev > FullLevel then t
    else
      ScaledWithinTrack(t, lev);
      var f := (t * lev) / FullLevel;
      if f > t then t else f
  }

  /** The scaled fill never exceeds the track, so the clamp in Fill never
      changes anything: at 97 the fill is exactly the track. */
  lemma ScaledWithinTrack(t: int, lev: int)
    requires t >= 0 && 0 <= lev <= FullLevel
    ensures 0 <= (t * lev) / FullLevel <= t
    ensures lev == FullLevel ==> (t * lev) / FullLevel == t
  {
    assert 0 <= t * lev <= t * FullLevel by {
      assert t * FullLevel - t * lev == t * (FullLevel - lev);
    }
  }

  /** A higher level never gives a narrower fill. */
  lemma FillMonotone(ic: int, a: int, b: int)
    requires a <= b
    ensures Fill(ic, a) <= Fill(ic, b)
  {
    var t := Track(ic);
    if 0 <= a && b <= FullLevel {
      assert t * a <= t * b by {
        assert t * b - t * a == t * (b - a);
      }
    }
  }

  /** The height is even whenever the last clamp does not apply. */
  lemma EvenUnlessClamped(ic: int)
    ensures EvenHeight(ic) % 2 == 0 && EvenHeight(ic) >= 20
    ensures Height(ic) != ic - 2 ==> Height(ic) % 2 == 0
  {
  }

  /** The height in closed form: the last clamp fires for every icon size
      up to 20, a 36-pixel-wide icon is 20 high from 21 to 35, and from 36
      up the even height is used. */
  lemma HeightByIconSize(ic: int)
    ensures ic <= 20 ==> Height(ic) == ic - 2
    ensures 21 <= ic < MinWidth ==> Height(ic) == 20
    ensures ic >= MinWidth ==> Height(ic) == EvenHeight(ic)
  {
  }

  /** The last clamp can make the height odd: a 19-pixel panel icon gets a
      36 by 17 icon. */
  lemma OddWhenClamped()
    ensures Width(19) == 36 && Height(19) == 17
  {
  }

  /** The fill at the levels that matter: empty at 0, full at 97, and 50
      pixels for level 50 on a 97-pixel track (a 109-pixel icon). */
  lemma FillExamples(ic: int)
    ensures Fill(ic, 0) == 0
    ensures Fill(ic, FullLevel) == Track(ic)
    ensures Fill(109, 50) == 50
  {
  }
}
