/**
 * fade_background_to_image: the step, opacity and sleep schedule, exactly as
 * rationals, and the loop that paints the new image onto the current
 * background pixmap and republishes it once per step.
 */
module Fade {
  import opened Wrappers
  import opened Bytes
  import opened XServer
  import opened Background
  import opened SetWallpaper

  /** steps = max(1, fps * secs). */
  function Steps(fps: int, secs: int): (n: int)
    ensures n >= 1
  {
    if fps * secs > 1 then fps * secs else 1
  }

  /** Steps is fps * secs whenever that is positive, and 1 otherwise; step and sleep never divide by zero. */
  lemma StepsFacts(fps: int, secs: int)
    ensures fps * secs >= 1 ==> Steps(fps, secs) == fps * secs
    ensures fps * secs < 1 ==> Steps(fps, secs) == 1
    ensures secs == 0 ==> Steps(fps, secs) == 1
    ensures Steps(20, 5) == 100
  {
  }

  /** step = 1 / steps. */
  function StepOpacity(steps: int): (step: real)
    requires steps >= 1
    ensures 0.0 < step <= 1.0
    ensures step * steps as real == 1.0
  {
    1.0 / steps as real
  }

  /** sleep = secs / steps. */
  function StepSleep(secs: int, steps: int): (sleep: real)
    requires steps >= 1
    ensures sleep * steps as real == secs as real
  {
    secs as real / steps as real
  }

  /** The opacity of frame i: i * step. */
  function FrameOpacity(i: int, steps: int): (alpha: real)
    requires steps >= 1
    ensures alpha * steps as real == i as real
  {
    i as real * StepOpacity(steps)
  }

  /** The opacities the loop paints, frame by frame: for i in range(steps). */
  function Schedule(steps: int): (alphas: seq<real>)
    requires steps >= 1
    ensures |alphas| == steps
    ensures forall i | 0 <= i < steps :: alphas[i] * steps as real == i as real
  {
    seq(steps, i requires 0 <= i < steps => FrameOpacity(i, steps))
  }

  lemma FrameOpacityIsRatio(i: int, steps: int)
    requires steps >= 1
    ensures FrameOpacity(i, steps) == i as real / steps as real
  {
  }

  /**
   * The schedule has one opacity per step; it starts at 0, strictly
   * increases, stays below 1 and ends at (steps - 1) / steps.
   */
  lemma ScheduleShape(steps: int)
    requires steps >= 1
    ensures |Schedule(steps)| == steps
    ensures Schedule(steps)[0] == 0.0
    ensures forall i, j | 0 <= i < j < steps :: Schedule(steps)[i] < Schedule(steps)[j]
    ensures forall i | 0 <= i < steps :: 0.0 <= Schedule(steps)[i] < 1.0
    ensures Schedule(steps)[steps - 1] == (steps - 1) as real / steps as real
  {
    var n := steps as real;
    forall i, j | 0 <= i < j < steps ensures Schedule(steps)[i] < Schedule(steps)[j] {
      FrameOpacityIsRatio(i, steps);
      FrameOpacityIsRatio(j, steps);
      RatioLess(i as real, j as real, n);
    }
    forall i | 0 <= i < steps ensures 0.0 <= Schedule(steps)[i] < 1.0 {
      FrameOpacityIsRatio(i, steps);
      RatioLess(i as real, n, n);
      RatioLess(0.0, i as real + 1.0, n);
    }
    FrameOpacityIsRatio(steps - 1, steps);
  }

  lemma RatioLess(a: real, b: real, n: real)
    requires a < b && n > 0.0
    ensures a / n < b / n
  {
    assert b / n - a / n == (b - a) / n;
  }

  /** The sleeps of all steps add up to secs. */
  lemma TotalSleep(secs: int, steps: int)
    requires steps >= 1
    ensures steps as real * StepSleep(secs, steps) == secs as real
  {
  }

  /** The sleep is negative exactly when secs is, and time.sleep then raises. */
  lemma SleepSign(secs: int, steps: int)
    requires steps >= 1
    ensures StepSleep(secs, steps) < 0.0 <==> secs < 0
  {
    if secs < 0 { RatioLess(secs as real, 0.0, steps as real); }
    else if secs > 0 { RatioLess(0.0, secs as real, steps as real); }
  }

  /**
   * The share of the original background left in the pixmap after an opaque
   * source is painted over it, with the OVER operator, at each opacity in
   * turn: each paint at opacity a keeps (1 - a) of what was there. This is
   * exact arithmetic; 8-bit blending rounds a small share away.
   */
  function Residual(alphas: seq<real>): real
  {
    if alphas == [] then 1.0 else Residual(alphas[..|alphas| - 1]) * (1.0 - alphas[|alphas| - 1])
  }

  /** While every opacity stays below 1, some of the original background always remains, in exact arithmetic. */
  lemma {:induction false} ResidualPositive(alphas: seq<real>)
    requires forall i | 0 <= i < |alphas| :: 0.0 <= alphas[i] < 1.0
    ensures Residual(alphas) > 0.0
  {
    if alphas != [] {
      var init := alphas[..|alphas| - 1];
      ResidualPositive(init);
      var a := Residual(init);
      var b := 1.0 - alphas[|alphas| - 1];
      assert a > 0.0 && b > 0.0;
      assert a * b > 0.0;
    }
  }

  /**
   * As written, in exact arithmetic no fade ever shows the new image fully
   * opaque. The share left is (steps-1)!/steps^(steps-1), so in 8-bit
   * channels it shows only at small step counts, above all at secs = 0.
   */
  lemma AsWrittenNeverOpaque(steps: int)
    requires steps >= 1
    ensures Residual(Schedule(steps)) > 0.0
  {
    ScheduleShape(steps);
    ResidualPositive(Schedule(steps));
  }

  /** As written, an instantaneous set (secs = 0) paints once at opacity 0: the image never appears. */
  lemma AsWrittenInstantPaintsNothing(fps: int)
    ensures Schedule(Steps(fps, 0)) == [0.0]
    ensures Residual(Schedule(Steps(fps, 0))) == 1.0
  {
    assert Steps(fps, 0) == 1;
    assert Schedule(1)[0] == 0.0;
    assert Schedule(1)[..0] == [];
  }

  /** The evidently intended schedule: frame i at (i + 1) / steps, so the last frame is fully opaque. */
  function IntendedSchedule(steps: int): seq<real>
    requires steps >= 1
  {
    seq(steps, i requires 0 <= i < steps => FrameOpacity(i + 1, steps))
  }

  /** The intended schedule strictly increases, stays in (0, 1] and ends at exactly 1. */
  lemma IntendedScheduleShape(steps: int)
    requires steps >= 1
    ensures |IntendedSchedule(steps)| == steps
    ensures forall i, j | 0 <= i < j < steps :: IntendedSchedule(steps)[i] < IntendedSchedule(steps)[j]
    ensures forall i | 0 <= i < steps :: 0.0 < IntendedSchedule(steps)[i] <= 1.0
    ensures IntendedSchedule(steps)[steps - 1] == 1.0
  {
    var n := steps as real;
    forall i, j | 0 <= i < j < steps ensures IntendedSchedule(steps)[i] < IntendedSchedule(steps)[j] {
      FrameOpacityIsRatio(i + 1, steps);
      FrameOpacityIsRatio(j + 1, steps);
      RatioLess(i as real + 1.0, j as real + 1.0, n);
    }
    forall i | 0 <= i < steps ensures 0.0 < IntendedSchedule(steps)[i] <= 1.0 {
      FrameOpacityIsRatio(i + 1, steps);
      RatioLess(0.0, i as real + 1.0, n);
      if i + 1 < steps { RatioLess(i as real + 1.0, n, n); }
    }
    FrameOpacityIsRatio(steps, steps);
  }

  /** With the intended schedule the new image covers the original completely. */
  lemma IntendedReachesOpaque(steps: int)
    requires steps >= 1
    ensures Residual(IntendedSchedule(steps)) == 0.0
  {
    IntendedScheduleShape(steps);
  }

  /** One frame: cairo paints the image onto the pixmap at `alpha`, then set_background republishes it. */
  function FrameRequests(root: u32, pixmap: u32, alpha: real, width: nat, height: nat): seq<Request>
  {
    [Paint(pixmap, alpha)] + PublishRequests(root, pixmap, width, height)
  }

  /** The frames for the given opacities, in order. */
  function FramesRequests(root: u32, pixmap: u32, alphas: seq<real>, width: nat, height: nat): seq<Request>
  {
    if alphas == [] then []
    else FramesRequests(root, pixmap, alphas[..|alphas| - 1], width, height)
         + FrameRequests(root, pixmap, alphas[|alphas| - 1], width, height)
  }

  /** The opacities of the Paint requests of a log, in order. */
  function PaintedAlphas(log: seq<Request>): seq<real>
  {
    if log == [] then []
    else PaintedAlphas(log[..|log| - 1]) + (if log[|log| - 1].Paint? then [log[|log| - 1].alpha] else [])
  }

  /** The number of times a log sets the root's background attribute. */
  function PublishCount(log: seq<Request>): nat
  {
    if log == [] then 0
    else PublishCount(log[..|log| - 1]) + (if log[|log| - 1].ChangeWindowAttributes? then 1 else 0)
  }

  lemma {:induction false} PaintedAlphasAppend(a: seq<Request>, b: seq<Request>)
    ensures PaintedAlphas(a + b) == PaintedAlphas(a) + PaintedAlphas(b)
    ensures PublishCount(a + b) == PublishCount(a) + PublishCount(b)
  {
    if b == [] {
      assert a + b == a;
    } else {
      var n := |b| - 1;
      assert (a + b)[..|a + b| - 1] == a + b[..n];
      PaintedAlphasAppend(a, b[..n]);
    }
  }

  lemma SingleCounts(r: Request)
    ensures PaintedAlphas([r]) == if r.Paint? then [r.alpha] else []
    ensures PublishCount([r]) == if r.ChangeWindowAttributes? then 1 else 0
  {
    assert [r][..0] == [];
  }

  lemma PairCounts(a: Request, b: Request)
    ensures PaintedAlphas([a, b]) == PaintedAlphas([a]) + PaintedAlphas([b])
    ensures PublishCount([a, b]) == PublishCount([a]) + PublishCount([b])
  {
    PaintedAlphasAppend([a], [b]);
    assert [a] + [b] == [a, b];
  }

  lemma WriteCounts(root: u32, name: string, pixmap: u32)
    ensures PaintedAlphas(WriteRequests(root, name, pixmap)) == []
    ensures PublishCount(WriteRequests(root, name, pixmap)) == 0
  {
    var w := WriteRequests(root, name, pixmap);
    PairCounts(w[0], w[1]);
    SingleCounts(w[0]);
    SingleCounts(w[1]);
  }

  lemma AttributeCounts(root: u32, pixmap: u32, width: nat, height: nat)
    ensures PaintedAlphas(AttributeRequests(root, pixmap, width, height)) == []
    ensures PublishCount(AttributeRequests(root, pixmap, width, height)) == 1
  {
    var tail := AttributeRequests(root, pixmap, width, height);
    PaintedAlphasAppend([tail[0]], [tail[1], tail[2]]);
    assert [tail[0]] + [tail[1], tail[2]] == tail;
    SingleCounts(tail[0]);
    PairCounts(tail[1], tail[2]);
    SingleCounts(tail[1]);
    SingleCounts(tail[2]);
  }

  lemma PublishCounts(root: u32, pixmap: u32, width: nat, height: nat)
    ensures PaintedAlphas(PublishRequests(root, pixmap, width, height)) == []
    ensures PublishCount(PublishRequests(root, pixmap, width, height)) == 1
  {
    var w1 := WriteRequests(root, XRootPmapId, pixmap);
    var w2 := WriteRequests(root, ESetRootPmapId, pixmap);
    var tail := AttributeRequests(root, pixmap, width, height);
    PaintedAlphasAppend(w1, w2 + tail);
    PaintedAlphasAppend(w2, tail);
    WriteCounts(root, XRootPmapId, pixmap);
    WriteCounts(root, ESetRootPmapId, pixmap);
    AttributeCounts(root, pixmap, width, height);
  }

  lemma FrameCounts(root: u32, pixmap: u32, alpha: real, width: nat, height: nat)
    ensures PaintedAlphas(FrameRequests(root, pixmap, alpha, width, height)) == [alpha]
    ensures PublishCount(FrameRequests(root, pixmap, alpha, width, height)) == 1
  {
    PaintedAlphasAppend([Paint(pixmap, alpha)], PublishRequests(root, pixmap, width, height));
    SingleCounts(Paint(pixmap, alpha));
    PublishCounts(root, pixmap, width, height);
  }

  /** The fade paints exactly the given opacities, in order, and publishes once per frame. */
  lemma {:induction false} FramesCounts(root: u32, pixmap: u32, alphas: seq<real>, width: nat, height: nat)
    ensures PaintedAlphas(FramesRequests(root, pixmap, alphas, width, height)) == alphas
    ensures PublishCount(FramesRequests(root, pixmap, alphas, width, height)) == |alphas|
  {
    if alphas != [] {
      var n := |alphas| - 1;
      FramesCounts(root, pixmap, alphas[..n], width, height);
      PaintedAlphasAppend(FramesRequests(root, pixmap, alphas[..n], width, height), FrameRequests(root, pixmap, alphas[n], width, height));
      FrameCounts(root, pixmap, alphas[n], width, height);
      assert alphas == alphas[..n] + [alphas[n]];
    }
  }

  lemma FramesRequestsSnoc(root: u32, pixmap: u32, alphas: seq<real>, i: nat, width: nat, height: nat)
    requires i < |alphas|
    ensures FramesRequests(root, pixmap, alphas[..i + 1], width, height)
         == FramesRequests(root, pixmap, alphas[..i], width, height) + FrameRequests(root, pixmap, alphas[i], width, height)
  {
    assert alphas[..i + 1][..i] == alphas[..i];
  }

  /**
   * How fade_background_to_image ends: the error of a failed background
   * read; no root visual to build the surface with, which the surface
   * constructor converts before it looks at the pixmap; no background to
   * fade from; the ValueError time.sleep raises for a negative sleep; or a
   * completed fade.
   */
  function FadeOutcome(background: Result<Option<u32>>, visual: Option<Visual>, secs: int): (r: Outcome)
    ensures r == Pass <==> background.Ok? && background.value.Some? && visual.Some? && secs >= 0
    ensures background.Err? ==> r == Fail(StructError)
    ensures background.Ok? && visual.None? ==> r == Fail(NoRootVisual)
    ensures r == Fail(MissingBackground) <==> background == Ok(None) && visual.Some?
  {
    match background
    case Err(e) => Fail(StructError)
    case Ok(b) =>
      if visual.None? then Fail(NoRootVisual)
      else if b.None? then Fail(MissingBackground)
      else if secs < 0 then Fail(NegativeSleep)
      else Pass
  }

  /** How many frames the fade paints before it stops: all of them, or one before a negative sleep. */
  function FramesPainted(fps: int, secs: int): (n: nat)
    ensures 1 <= n <= Steps(fps, secs)
    ensures n == Steps(fps, secs) <==> secs >= 0 || Steps(fps, secs) == 1
  {
    if secs < 0 then 1 else Steps(fps, secs)
  }

  /** One frame of the fade: the image painted onto `pixmap` at `alpha`, then the pixmap republished. */
  method PaintFrame(wrapper: ConnectionWrapper, pixmap: u32, alpha: real)
    requires wrapper.Valid()
    modifies wrapper.conn
    ensures wrapper.Valid()
    ensures wrapper.conn.log == old(wrapper.conn.log) + FrameRequests(wrapper.root, pixmap, alpha, wrapper.width, wrapper.height)
    ensures wrapper.conn.store == Published(old(wrapper.conn.store), pixmap)
  {
    ghost var before := wrapper.conn.log;
    wrapper.conn.Send(Paint(pixmap, alpha));
    wrapper.SetBackground(pixmap);
    LogFrame(before, Paint(pixmap, alpha), PublishRequests(wrapper.root, pixmap, wrapper.width, wrapper.height));
  }

  lemma LogFrame(log: seq<Request>, paint: Request, publish: seq<Request>)
    ensures log + [paint] + publish == log + ([paint] + publish)
  {
  }

  /**
   * The loop of fade_background_to_image: frame i paints the image onto
   * `pixmap` at opacity i * step (see FrameOpacity), republishes the pixmap and sleeps `sleep`;
   * a negative sleep raises after the first frame.
   */
  method PaintFrames(wrapper: ConnectionWrapper, pixmap: u32, steps: int, sleep: real)
    returns (completed: bool)
    requires wrapper.Valid()
    requires steps >= 1
    modifies wrapper.conn
    ensures wrapper.Valid()
    ensures completed <==> sleep >= 0.0
    ensures wrapper.conn.log == old(wrapper.conn.log)
      + FramesRequests(wrapper.root, pixmap, Schedule(steps)[..if completed then steps else 1], wrapper.width, wrapper.height)
    ensures wrapper.conn.store == Published(old(wrapper.conn.store), pixmap)
  {
    var conn := wrapper.conn;
    ghost var start := conn.log;
    ghost var s0 := conn.store;
    PublishedIdempotent(s0, pixmap);
    ghost var alphas := Schedule(steps);
    var i := 0;
    while i < steps
      invariant 0 <= i <= steps
      invariant i > 0 ==> sleep >= 0.0
      invariant wrapper.Valid()
      invariant conn.log == start + FramesRequests(wrapper.root, pixmap, alphas[..i], wrapper.width, wrapper.height)
      invariant i == 0 ==> conn.store == s0
      invariant i > 0 ==> conn.store == Published(s0, pixmap)
    {
      FramesRequestsSnoc(wrapper.root, pixmap, alphas, i, wrapper.width, wrapper.height);
      PaintFrame(wrapper, pixmap, FrameOpacity(i, steps));
      if sleep < 0.0 {
        return false;
      }
      i := i + 1;
    }
    completed := true;
  }

  /**
   * fade_background_to_image, given the decoded image's effect as the Paint
   * request: the current background pixmap is read, a surface over it
   * needs the root visual (checked first) and the pixmap, and then the
   * frames are painted.
   */
  method FadeBackgroundToImage(conn: Connection, secs: int, fps: int) returns (r: Outcome)
    requires conn.Valid()
    modifies conn
    ensures conn.Valid()
    ensures var screen := conn.setup.roots[0];
      r == FadeOutcome(CurrentBackground(old(conn.store), conn.hostOrder),
                       FirstWithId(AllVisuals(screen.allowedDepths), screen.rootVisual), secs)
    ensures var screen := conn.setup.roots[0];
      var background := CurrentBackground(old(conn.store), conn.hostOrder);
      var start := old(conn.log) + [SetCloseDownMode(RetainPermanent)]
        + ReadRequests(screen.root, ReadPixmapProperty(old(conn.store), XRootPmapId, conn.hostOrder));
      if background.Ok? && background.value.Some?
         && FirstWithId(AllVisuals(screen.allowedDepths), screen.rootVisual).Some?
      then
        var p := background.value.value;
        && conn.log == start + FramesRequests(screen.root, p, Schedule(Steps(fps, secs))[..FramesPainted(fps, secs)],
                                              screen.widthInPixels, screen.heightInPixels)
        && conn.store == Published(old(conn.store).(retain := true), p)
      else
        && conn.log == start
        && conn.store == old(conn.store).(retain := true, atoms := conn.store.atoms)
        && old(conn.store).atoms <= conn.store.atoms <= old(conn.store).atoms + {XRootPmapId, ESetRootPmapId}
  {
    ghost var s0 := conn.store;
    var wrapper := new ConnectionWrapper(conn, true);
    ghost var s1 := conn.store;
    ReadSeesProps(s0, s1, XRootPmapId, conn.hostOrder);
    CurrentBackgroundSeesProps(s0, s1, conn.hostOrder);
    var background := wrapper.GetCurrentBackground();
    ghost var s2 := conn.store;
    if background.Err? {
      return Fail(StructError);
    }
    var visual := wrapper.FindRootVisual();
    if visual.None? {
      return Fail(NoRootVisual);
    }
    if background.value.None? {
      return Fail(MissingBackground);
    }
    var pixmap := background.value.value;
    PublishedAbsorbsAtoms(s1, pixmap, s2.atoms);
    var steps := Steps(fps, secs);
    var sleep := StepSleep(secs, steps);
    SleepSign(secs, steps);
    var completed := PaintFrames(wrapper, pixmap, steps, sleep);
    r := if completed then Pass else Fail(NegativeSleep);
  }
}
