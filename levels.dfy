/** Level arithmetic of the blind controller: quantisation to the increment, validation of
    manually requested levels, percentage conversion, the mirrored ("inverse") level, angle
    normalisation and the fixed-level parser of typed level inputs. */
module Levels {
  import opened Values

  /** The blind's level range. `levelBottom <= levelTop` holds after start-up, which swaps
      inverted settings and sets `levelReverse`. */
  datatype BlindData = BlindData(levelTop: int, levelBottom: int, increment: int, levelReverse: bool)
  {
    predicate Valid()
    {
      increment > 0 && levelBottom <= levelTop
    }
  }

  predicate IsInteger(x: real)
  {
    x.Floor as real == x
  }

  /** Math.round: the nearest integer, halves towards +infinity. */
  function Round(x: real): (r: int)
    ensures x - 0.5 < r as real <= x + 0.5
  {
    (x + 0.5).Floor
  }

  /** posRound_: round to the nearest multiple of the increment, then cap at levelTop and
      at levelBottom (in that order). */
  function PosRound(c: BlindData, pos: real): (r: int)
    requires c.Valid()
    ensures c.levelBottom <= r <= c.levelTop
  {
    var p := Round(pos / c.increment as real) * c.increment;
    var capped := if p > c.levelTop then c.levelTop else p;
    if capped < c.levelBottom then c.levelBottom else capped
  }

  /** Unless a cap applied, the rounded level is a multiple of the increment. */
  lemma PosRoundOnGrid(c: BlindData, pos: real)
    requires c.Valid()
    ensures IsMultiple(PosRound(c, pos), c.increment) || PosRound(c, pos) == c.levelTop
            || PosRound(c, pos) == c.levelBottom
  {
    MultipleMod(Round(pos / c.increment as real), c.increment);
  }

  predicate IsMultiple(x: int, d: int)
    requires d > 0
  {
    x % d == 0
  }

  lemma MultipleMod(q: int, d: int)
    requires d > 0
    ensures (q * d) % d == 0 && (q * d) / d == q
  {
    var s, r := (q * d) / d, (q * d) % d;
    assert d * (q - s) == r;
    if q - s >= 1 {
      MulAtLeast(d, q - s);
    } else if q - s <= -1 {
      MulAtLeast(d, s - q);
    }
  }

  lemma {:induction false} MulAtLeast(d: int, k: int)
    requires d > 0 && k >= 1
    ensures d * k >= d
    decreases k
  {
    if k > 1 {
      MulAtLeast(d, k - 1);
      assert d * k == d * (k - 1) + d;
    }
  }

  /** A level the blind can take: inside the range and a multiple of the increment. */
  predicate Aligned(c: BlindData, level: int)
    requires c.Valid()
  {
    c.levelBottom <= level <= c.levelTop && level % c.increment == 0
  }

  lemma PosRoundKeepsAligned(c: BlindData, level: int)
    requires c.Valid() && Aligned(c, level)
    ensures PosRound(c, level as real) == level
  {
    var k := level / c.increment;
    assert level == k * c.increment;
    RealDivExact(k, c.increment);
  }

  lemma RealDivExact(k: int, d: int)
    requires d > 0
    ensures (k * d) as real / d as real == k as real
  {
    assert (k * d) as real == k as real * d as real;
  }

  /** validPosition_ for a level read from a message (None: empty or NaN). Top, bottom and
      increment are integers here, so the integer/increment test always applies. */
  predicate ValidPosition(c: BlindData, level: Option<real>, allowRound: bool)
    requires c.Valid()
  {
    if level.None? then false
    else if level.value < c.levelBottom as real then false
    else if level.value > c.levelTop as real then false
    else if !IsInteger(level.value) || level.value.Floor % c.increment != 0 then false
    else if allowRound then true
    else IsInteger(level.value / c.increment as real)
  }

  /** A level is accepted exactly when it is present, inside [levelBottom, levelTop], an
      integer and a multiple of the increment; `allowRound` makes no difference. */
  lemma ValidPositionIff(c: BlindData, level: Option<real>, allowRound: bool)
    requires c.Valid()
    ensures ValidPosition(c, level, allowRound) <==>
              level.Some? && IsInteger(level.value) && Aligned(c, level.value.Floor)
  {
    if level.Some? && IsInteger(level.value) && Aligned(c, level.value.Floor) {
      var v := level.value.Floor;
      var k := v / c.increment;
      assert v == k * c.increment;
      RealDivExact(k, c.increment);
    }
  }

  /** posPrcToAbs_: a fraction of the range (0 = bottom, 1 = top) as a rounded level. */
  function PosPrcToAbs(c: BlindData, percent: real): (r: int)
    requires c.Valid()
    ensures c.levelBottom <= r <= c.levelTop
  {
    PosRound(c, PrcToLevel(c, percent))
  }

  /** The unrounded level a fraction of the range stands for. */
  function PrcToLevel(c: BlindData, percent: real): real
  {
    (c.levelTop - c.levelBottom) as real * percent + c.levelBottom as real
  }

  /** posAbsToPrc_: the fraction of the range a level stands for; None where JavaScript
      divides by zero (levelTop == levelBottom) and gets NaN or an infinity. */
  function PosAbsToPrc(c: BlindData, level: int): (r: Option<real>)
    requires c.Valid()
    ensures r.Some? <==> c.levelTop != c.levelBottom
    ensures r.Some? ==> r.value * (c.levelTop - c.levelBottom) as real == (level - c.levelBottom) as real
  {
    if c.levelTop == c.levelBottom then None
    else Some((level - c.levelBottom) as real / (c.levelTop - c.levelBottom) as real)
  }

  /** getInversePos_: the level mirrored across the middle of the range, by way of the
      complementary fraction. The result is the exact reflection `levelTop + levelBottom -
      level`, rounded to the increment. NaN stays NaN, and so does every level of an empty
      range, where the fraction is a division by zero. */
  function GetInversePos(c: BlindData, level: Num): (r: Num)
    requires c.Valid()
    ensures level.NaN? || c.levelTop == c.levelBottom ==> r.NaN?
    ensures level.N? && c.levelTop != c.levelBottom ==>
              r == N(PosRound(c, (c.levelTop + c.levelBottom - level.v) as real))
    ensures r.N? ==> c.levelBottom <= r.v <= c.levelTop
  {
    match level
    case NaN => NaN
    case N(l) =>
      match PosAbsToPrc(c, l)
      case None => NaN
      case Some(p) =>
        FractionScalesBack(c, l);
        N(PosPrcToAbs(c, 1.0 - p))
  }

  /** The fraction of a level, scaled back over the range, is the level itself; the
      complementary fraction gives the mirrored level. */
  lemma FractionScalesBack(c: BlindData, l: int)
    requires c.Valid() && c.levelTop != c.levelBottom
    ensures PrcToLevel(c, PosAbsToPrc(c, l).value) == l as real
    ensures PrcToLevel(c, 1.0 - PosAbsToPrc(c, l).value) == (c.levelTop + c.levelBottom - l) as real
  {
    var s := (c.levelTop - c.levelBottom) as real;
    var p := PosAbsToPrc(c, l).value;
    MulDiv((l - c.levelBottom) as real, s);
    assert s * (1.0 - p) == s - s * p;
  }

  lemma MulDiv(x: real, s: real)
    requires s != 0.0
    ensures s * (x / s) == x
  {
  }

  /** Mirroring twice gives the level back, for every level the blind can take, provided
      both ends of the range are multiples of the increment. */
  lemma InverseInvolutive(c: BlindData, l: int)
    requires c.Valid() && c.levelTop != c.levelBottom
    requires c.levelTop % c.increment == 0 && c.levelBottom % c.increment == 0
    requires Aligned(c, l)
    ensures GetInversePos(c, GetInversePos(c, N(l))) == N(l)
  {
    var m := c.levelTop + c.levelBottom - l;
    MirrorAligned(c, l);
    PosRoundKeepsAligned(c, m);
    assert GetInversePos(c, N(l)) == N(m);
    PosRoundKeepsAligned(c, l);
    assert c.levelTop + c.levelBottom - m == l;
  }

  /** The mirror image of a level on the grid is on the grid, when both ends are. */
  lemma MirrorAligned(c: BlindData, l: int)
    requires c.Valid() && c.levelTop % c.increment == 0 && c.levelBottom % c.increment == 0
    requires Aligned(c, l)
    ensures Aligned(c, c.levelTop + c.levelBottom - l)
  {
    var a, b, d := c.levelTop / c.increment, c.levelBottom / c.increment, l / c.increment;
    assert c.levelTop + c.levelBottom - l == (a + b - d) * c.increment;
    MultipleMod(a + b - d, c.increment);
  }

  /** A level converted to a fraction of the range and back is unchanged. */
  lemma PercentRoundTrip(c: BlindData, l: int)
    requires c.Valid() && c.levelTop != c.levelBottom && Aligned(c, l)
    ensures PosAbsToPrc(c, l).Some? && PosPrcToAbs(c, PosAbsToPrc(c, l).value) == l
  {
    FractionScalesBack(c, l);
    PosRoundKeepsAligned(c, l);
  }

  /** Math.round never decreases when its argument grows. */
  lemma RoundMonotone(x: real, y: real)
    requires x <= y
    ensures Round(x) <= Round(y)
  {
  }

  /** A higher requested level never rounds to a lower one. */
  lemma PosRoundMonotone(c: BlindData, x: real, y: real)
    requires c.Valid() && x <= y
    ensures PosRound(c, x) <= PosRound(c, y)
  {
    var d := c.increment as real;
    assert x / d <= y / d by {
      assert (y - x) / d >= 0.0;
      assert y / d - x / d == (y - x) / d;
    }
    var a, b := Round(x / d), Round(y / d);
    RoundMonotone(x / d, y / d);
    assert a * c.increment <= b * c.increment by {
      assert (b - a) * c.increment >= 0;
    }
  }

  /** A larger fraction of the range never gives a lower level. */
  lemma PosPrcToAbsMonotone(c: BlindData, p: real, q: real)
    requires c.Valid() && p <= q
    ensures PosPrcToAbs(c, p) <= PosPrcToAbs(c, q)
  {
    var s := (c.levelTop - c.levelBottom) as real;
    assert s * p <= s * q by {
      assert s * (q - p) >= 0.0;
    }
    PosRoundMonotone(c, PrcToLevel(c, p), PrcToLevel(c, q));
  }

  /** A multiple of 360 degrees. */
  function Turns(k: int): real
  {
    360.0 * k as real
  }

  /** angleNorm_: add or subtract whole turns until the angle lies in [0, 360]. */
  method AngleNorm(angle: real) returns (r: real)
    ensures 0.0 <= r <= 360.0
    ensures exists k :: r == angle + Turns(k)
    ensures 0.0 <= angle <= 360.0 ==> r == angle
  {
    r := angle;
    ghost var k := 0;
    while r < 0.0
      invariant r == angle + Turns(k)
      invariant angle >= 0.0 ==> r == angle
      decreases if r < 0.0 then (-r).Floor + 1 else 0
    {
      r := r + 360.0;
      k := k + 1;
    }
    while r > 360.0
      invariant 0.0 <= r
      invariant r == angle + Turns(k)
      invariant 0.0 <= angle <= 360.0 ==> r == angle
      decreases r.Floor
    {
      r := r - 360.0;
      k := k - 1;
    }
  }

  /** The value of a `levelFixed` typed input: the number parseFloat found, or the text
      when parseFloat gives NaN. */
  datatype FixedValue = Parsed(val: real) | Unparsed(text: string)

  /** A typed level input: 'none', '' or 'levelND'; a fixed level; or any other property
      type, whose number is read by the configuration node. */
  datatype LevelSpec = LevelNotDefined | LevelFixed(fixed: FixedValue) | LevelProperty

  /** `def || NaN`: a zero or NaN default becomes NaN. */
  function DefaultOrNaN(def: Num): Num
  {
    if def == N(0) then NaN else def
  }

  /** A fixed level given as a percentage. */
  predicate FixedPercent(spec: LevelSpec)
  {
    spec.LevelFixed? && spec.fixed.Parsed?
  }

  /** getBlindPosFromTI. `property` is the number the configuration node reads for a
      property-typed input. A fixed percentage below 1 closes the blind, one above 99
      opens it, and any other is that fraction of the range; a fixed text closes on
      'close' and opens on 'open'. An unknown fixed text throws inside the function, which
      catches it and returns the default. A property level is mirrored for a reversed
      blind. */
  function BlindPosFromTI(c: BlindData, spec: LevelSpec, property: Num, def: Num): (r: Num)
    requires c.Valid()
    ensures spec.LevelNotDefined? ==> r == DefaultOrNaN(def)
    ensures FixedPercent(spec) && spec.fixed.val < 1.0 ==> r == N(c.levelBottom)
    ensures FixedPercent(spec) && spec.fixed.val > 99.0 ==> r == N(c.levelTop)
    ensures FixedPercent(spec) && 1.0 <= spec.fixed.val <= 99.0 ==> r == N(PosPrcToAbs(c, spec.fixed.val / 100.0))
    ensures spec.LevelFixed? ==> r == DefaultOrNaN(def) || (r.N? && c.levelBottom <= r.v <= c.levelTop)
    ensures spec.LevelFixed? && spec.fixed.Unparsed? ==>
              r == (if Contains(spec.fixed.text, "close") then N(c.levelBottom)
                    else if Contains(spec.fixed.text, "open") then N(c.levelTop)
                    else DefaultOrNaN(def))
    ensures spec.LevelProperty? && !c.levelReverse ==> r == property
    ensures spec.LevelProperty? && c.levelReverse ==> r == GetInversePos(c, property)
  {
    var d := DefaultOrNaN(def);
    match spec
    case LevelNotDefined => d
    case LevelFixed(Parsed(val)) =>
      if val < 1.0 then N(c.levelBottom)
      else if val > 99.0 then N(c.levelTop)
      else N(PosPrcToAbs(c, val / 100.0))
    case LevelFixed(Unparsed(text)) =>
      if Contains(text, "close") then N(c.levelBottom)
      else if Contains(text, "open") then N(c.levelTop)
      else d
    case LevelProperty =>
      if c.levelReverse then GetInversePos(c, property) else property
  }

  /** A larger fixed percentage never gives a lower level. */
  lemma FixedLevelMonotone(c: BlindData, p: real, q: real, property: Num, def: Num)
    requires c.Valid() && p <= q
    ensures BlindPosFromTI(c, LevelFixed(Parsed(p)), property, def).v
            <= BlindPosFromTI(c, LevelFixed(Parsed(q)), property, def).v
  {
    if 1.0 <= p && q <= 99.0 {
      assert p / 100.0 <= q / 100.0;
      PosPrcToAbsMonotone(c, p / 100.0, q / 100.0);
    }
  }
}
