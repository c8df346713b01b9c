/** Sun control of the blind controller: whether the sun is in the window, the auto-trigger
    delay the sun position asks for, the oversteer check, and the level the sun position
    gives (calcBlindSunPosition). Altitude, azimuth and the height the sun shines into the
    room come from the configuration node's sun calculation, which is not modelled. */
module Sun {
  import opened Values
  import opened Levels
  import opened Rules

  const WinterMode := 1
  const SummerMode := 2
  /** Auto-trigger delays while the sun approaches the window and while it is in it. */
  const TimeBeforeSun := 600000
  const TimeSun := 300000

  /** The sun as seen from the window: azimuth and altitude in degrees, and
      tan(altitude) * floorLength, how deep it shines into the room. */
  datatype SunPosition = SunPosition(azimuth: real, altitude: real, height: real)

  /** The window: its azimuth range (normalised at start-up) and its top and bottom. */
  datatype SunWindow = SunWindow(azimuthStart: real, azimuthEnd: real, top: real, bottom: real)

  predicate InWindow(w: SunWindow, s: SunPosition)
  {
    w.azimuthStart <= s.azimuth <= w.azimuthEnd
  }

  /** The sun is below the horizon or, when a minimum altitude is set, below it. */
  predicate SunDown(s: SunPosition, minAltitude: real)
  {
    s.altitude <= 0.0 || (minAltitude != 0.0 && s.altitude < minAltitude)
  }

  /** The auto-trigger part of getSunPosition_: the delay never grows; it is kept (types 3
      and 4) while the sun is down or behind the house (azimuth up to 72 degrees); it is at
      most ten minutes while the sun approaches the window, and at most the smooth time (or
      five minutes) once the sun has passed the window's start. Past the window
      nothing changes. `minAltitude` 0 means no minimum. */
  function SunTrigger(at: Trigger, s: SunPosition, minAltitude: real, w: SunWindow, smoothTime: int): (t: Trigger)
    requires at.Trigger?
    ensures t.Trigger? && t.time <= at.time
    ensures SunDown(s, minAltitude) ==> t == Trigger(at.time, 3)
    ensures !SunDown(s, minAltitude) && s.azimuth <= 72.0 ==> t == Trigger(at.time, 4)
    ensures !SunDown(s, minAltitude) && 72.0 < s.azimuth <= w.azimuthStart ==>
              t == Trigger(Min(at.time, TimeBeforeSun), 5)
    ensures !SunDown(s, minAltitude) && 72.0 < s.azimuth && w.azimuthStart < s.azimuth <= w.azimuthEnd ==>
              t == (if smoothTime > 0 then Trigger(Min(at.time, smoothTime), 6) else Trigger(Min(at.time, TimeSun), 7))
    ensures !SunDown(s, minAltitude) && 72.0 < s.azimuth && w.azimuthStart < s.azimuth && w.azimuthEnd < s.azimuth ==>
              t == at
  {
    if SunDown(s, minAltitude) then Trigger(at.time, 3)
    else if s.azimuth <= 72.0 then Trigger(at.time, 4)
    else if s.azimuth <= w.azimuthStart then Trigger(Min(at.time, TimeBeforeSun), 5)
    else if s.azimuth <= w.azimuthEnd then
      if smoothTime > 0 then Trigger(Min(at.time, smoothTime), 6) else Trigger(Min(at.time, TimeSun), 7)
    else at
  }

  /** checkOversteer: the first oversteer entry whose comparison holds (`hits[i]`; None:
      the comparison throws, which ends the search with nothing found). */
  function FirstHit(hits: seq<Option<bool>>): (k: Option<nat>)
    ensures k.Some? ==> k.value < |hits| && hits[k.value] == Some(true)
                        && forall j :: 0 <= j < k.value ==> hits[j] == Some(false)
    ensures k.None? ==> forall j :: 0 <= j < |hits| && hits[j] == Some(true) ==>
                          exists i :: 0 <= i < j && hits[i].None?
  {
    if |hits| == 0 then None
    else
      match hits[0]
      case None => None
      case Some(true) => Some(0)
      case Some(false) =>
        match FirstHit(hits[1..])
        case None =>
          assert forall j :: 1 <= j < |hits| ==> hits[j] == hits[1..][j - 1];
          None
        case Some(k) =>
          assert forall j :: 1 <= j < k + 1 ==> hits[j] == hits[1..][j - 1];
          Some(k + 1)
  }

  /** A level and its inverse. */
  datatype LevelPair = LevelPair(level: Num, inverse: Num)

  /** The level the sun's height gives: closed up to the window's bottom, open from its
      top, and in between the fraction of the window the sun reaches. */
  function SunGeometry(c: BlindData, w: SunWindow, height: real): (p: LevelPair)
    requires c.Valid()
    ensures p.level.N? && c.levelBottom <= p.level.v <= c.levelTop
    ensures height <= w.bottom ==> p == LevelPair(N(c.levelBottom), N(c.levelTop))
    ensures w.bottom < height && w.top <= height ==> p == LevelPair(N(c.levelTop), N(c.levelBottom))
  {
    if height <= w.bottom then LevelPair(N(c.levelBottom), N(c.levelTop))
    else if height >= w.top then LevelPair(N(c.levelTop), N(c.levelBottom))
    else
      var l := PosPrcToAbs(c, (height - w.bottom) / (w.top - w.bottom));
      LevelPair(N(l), GetInversePos(c, N(l)))
  }

  /** The deeper the sun shines into the room, the higher the level. */
  lemma SunGeometryMonotone(c: BlindData, w: SunWindow, h1: real, h2: real)
    requires c.Valid() && h1 <= h2
    ensures SunGeometry(c, w, h1).level.v <= SunGeometry(c, w, h2).level.v
  {
    if w.bottom < h1 && h2 < w.top {
      var d := w.top - w.bottom;
      assert (h1 - w.bottom) / d <= (h2 - w.bottom) / d by {
        assert (h2 - w.bottom) / d - (h1 - w.bottom) / d == (h2 - h1) / d;
      }
      PosPrcToAbsMonotone(c, (h1 - w.bottom) / d, (h2 - w.bottom) / d);
    }
  }

  /** The inverse the sun geometry gives is getInversePos_ of its level at every height:
      between the window's edges by construction, and at both edges, where the other end of
      the range is taken directly, provided both ends lie on the increment grid. */
  lemma SunGeometryInverse(c: BlindData, w: SunWindow, height: real)
    requires c.Valid() && c.levelTop != c.levelBottom
    requires c.levelTop % c.increment == 0 && c.levelBottom % c.increment == 0
    ensures var p := SunGeometry(c, w, height);
            p.inverse == GetInversePos(c, p.level)
  {
    if height <= w.bottom || height >= w.top {
      PosRoundKeepsAligned(c, c.levelTop);
      PosRoundKeepsAligned(c, c.levelBottom);
    }
  }

  /** Everything calcBlindSunPosition reads besides the level range. */
  datatype SunInput = SunInput(
    mode: int,
    minAltitude: real,
    minDelta: int,
    levelMin: Num,
    levelMax: Num,
    smoothTime: int,
    changeAgain: int,
    now: int,
    oversteerActive: bool,
    oversteer: Option<Num>,
    previous: LevelPair,
    current: LevelPair,
    sun: SunPosition,
    window: SunWindow)

  /** The new level, the reason code and the new `changeAgain`. */
  datatype SunOutcome = SunOutcome(levels: LevelPair, code: int, changeAgain: int)

  /** The summer-mode altitude limit stops sun control. */
  predicate BelowMinAltitude(s: SunInput)
  {
    s.mode == SummerMode && s.minAltitude != 0.0 && s.sun.altitude < s.minAltitude
  }

  /** `Math.abs(a - b) < d`, false when either level is NaN. */
  predicate DeltaBelow(a: Num, b: Num, d: int)
  {
    a.N? && b.N? && (if a.v >= b.v then a.v - b.v else b.v - a.v) < d
  }

  /** The geometric level after the smoothing and minimum-delta checks (codes 9, 11, 14). */
  function Smoothed(c: BlindData, s: SunInput): (o: SunOutcome)
    requires c.Valid()
    ensures o.code in {9, 11, 14}
    ensures o.code == 11 <==> s.smoothTime > 0 && s.changeAgain > s.now
    ensures o.code != 9 ==> o.levels == s.previous && o.changeAgain == s.changeAgain
    ensures o.code == 9 ==> o.levels == SunGeometry(c, s.window, s.sun.height) && o.changeAgain == s.now + s.smoothTime
    ensures o.code == 14 ==>
              s.minDelta > 0 && DeltaBelow(s.previous.level, SunGeometry(c, s.window, s.sun.height).level, s.minDelta)
              && c.levelBottom < SunGeometry(c, s.window, s.sun.height).level.v < c.levelTop
    ensures (!(s.smoothTime > 0 && s.changeAgain > s.now) && s.minDelta > 0
              && DeltaBelow(s.previous.level, SunGeometry(c, s.window, s.sun.height).level, s.minDelta)
              && c.levelBottom < SunGeometry(c, s.window, s.sun.height).level.v < c.levelTop) ==> o.code == 14
  {
    var g := SunGeometry(c, s.window, s.sun.height);
    if s.smoothTime > 0 && s.changeAgain > s.now then SunOutcome(s.previous, 11, s.changeAgain)
    else if s.minDelta > 0 && DeltaBelow(s.previous.level, g.level, s.minDelta)
            && c.levelBottom < g.level.v < c.levelTop then SunOutcome(s.previous, 14, s.changeAgain)
    else SunOutcome(g, 9, s.now + s.smoothTime)
  }

  /** The final limit to levelMin (code 5) or else levelMax (code 6). When levelMin is
      not above levelMax, the result lies between them. */
  function ClampMinMax(c: BlindData, o: SunOutcome, levelMin: Num, levelMax: Num): (r: SunOutcome)
    requires c.Valid()
    ensures r == o <==> !Less(o.levels.level, levelMin) && !Less(levelMax, o.levels.level)
    ensures Less(o.levels.level, levelMin) ==> r == SunOutcome(LevelPair(levelMin, GetInversePos(c, levelMin)), 5, o.changeAgain)
    ensures r != o && !Less(o.levels.level, levelMin) ==>
              r == SunOutcome(LevelPair(levelMax, GetInversePos(c, levelMax)), 6, o.changeAgain)
    ensures !Less(levelMax, levelMin) ==> !Less(r.levels.level, levelMin) && !Less(levelMax, r.levels.level)
  {
    if Less(o.levels.level, levelMin) then SunOutcome(LevelPair(levelMin, GetInversePos(c, levelMin)), 5, o.changeAgain)
    else if Less(levelMax, o.levels.level) then SunOutcome(LevelPair(levelMax, GetInversePos(c, levelMax)), 6, o.changeAgain)
    else o
  }

  /** Clamping a clamped level again changes nothing, provided levelMin is not above
      levelMax. */
  lemma ClampIdempotent(c: BlindData, o: SunOutcome, levelMin: Num, levelMax: Num)
    requires c.Valid() && !Less(levelMax, levelMin)
    ensures ClampMinMax(c, ClampMinMax(c, o, levelMin, levelMax), levelMin, levelMax)
            == ClampMinMax(c, o, levelMin, levelMax)
  {
  }

  /** calcBlindSunPosition, as one decision on the state it reads. */
  function SunControl(c: BlindData, s: SunInput): (o: SunOutcome)
    requires c.Valid()
    ensures !InWindow(s.window, s.sun) && s.mode == WinterMode ==>
              o == SunOutcome(LevelPair(s.levelMin, GetInversePos(c, s.levelMin)), 13, s.changeAgain)
    ensures !InWindow(s.window, s.sun) && s.mode != WinterMode ==> o == SunOutcome(s.current, 8, s.changeAgain)
    ensures InWindow(s.window, s.sun) && BelowMinAltitude(s) ==> o == SunOutcome(s.current, 7, s.changeAgain)
    ensures o.code == 10 <==> InWindow(s.window, s.sun) && !BelowMinAltitude(s) && s.oversteerActive && s.oversteer.Some?
    ensures o.code == 10 ==> o.levels.level == s.oversteer.value
    ensures o.code == 12 <==> InWindow(s.window, s.sun) && !BelowMinAltitude(s)
                              && !(s.oversteerActive && s.oversteer.Some?) && s.mode == WinterMode
    ensures o.code == 12 ==> o.levels.level == s.levelMax
    ensures o.code in {5, 6, 9, 11, 14} <==>
              (InWindow(s.window, s.sun) && !BelowMinAltitude(s)
               && !(s.oversteerActive && s.oversteer.Some?) && s.mode != WinterMode)
    ensures o.code in {5, 6, 9, 11, 14} && !Less(s.levelMax, s.levelMin) ==>
              !Less(o.levels.level, s.levelMin) && !Less(s.levelMax, o.levels.level)
    ensures o.changeAgain == s.changeAgain || o.changeAgain == s.now + s.smoothTime
  {
    if !InWindow(s.window, s.sun) then
      if s.mode == WinterMode then SunOutcome(LevelPair(s.levelMin, GetInversePos(c, s.levelMin)), 13, s.changeAgain)
      else SunOutcome(s.current, 8, s.changeAgain)
    else if BelowMinAltitude(s) then SunOutcome(s.current, 7, s.changeAgain)
    else if s.oversteerActive && s.oversteer.Some? then
      SunOutcome(LevelPair(s.oversteer.value, GetInversePos(c, s.oversteer.value)), 10, s.changeAgain)
    else if s.mode == WinterMode then SunOutcome(LevelPair(s.levelMax, GetInversePos(c, s.levelMax)), 12, s.changeAgain)
    else ClampMinMax(c, Smoothed(c, s), s.levelMin, s.levelMax)
  }

  /** Under sun control (summer or any other mode that is not winter, sun in the window,
      no oversteer) with a fresh geometric level inside [levelMin, levelMax], the blind
      follows the sun, and a deeper sun never lowers the level. */
  lemma SunFollowsHeight(c: BlindData, s: SunInput, h2: real)
    requires c.Valid() && InWindow(s.window, s.sun) && !BelowMinAltitude(s)
    requires !(s.oversteerActive && s.oversteer.Some?) && s.mode != WinterMode
    requires !(s.smoothTime > 0 && s.changeAgain > s.now) && s.minDelta <= 0
    requires s.sun.height <= h2
    requires s.levelMin.N? && s.levelMax.N? && s.levelMin.v <= c.levelBottom && c.levelTop <= s.levelMax.v
    ensures SunControl(c, s).code == 9
    ensures SunControl(c, s).levels == SunGeometry(c, s.window, s.sun.height)
    ensures var s2 := s.(sun := s.sun.(height := h2));
            SunControl(c, s2).levels.level.v >= SunControl(c, s).levels.level.v
  {
    var s2 := s.(sun := s.sun.(height := h2));
    SunGeometryMonotone(c, s.window, s.sun.height, h2);
    assert SunControl(c, s2).levels == SunGeometry(c, s.window, h2);
  }
}
