/** The firework canvas behind the studio page: a collection of particles that a
    click fills with a burst and that every animation frame advances and culls.
    Only the integer side is modelled exactly: each particle's remaining `life`.
    Positions and the random direction and speed are carried along as opaque
    reals, and the floating-point step that moves a particle is a parameter. */
module Fireworks {

  datatype Point = Point(x: real, y: real)

  /** The direction (radians) and speed drawn at random for a particle at birth. */
  datatype Motion = Motion(angle: real, speed: real)

  datatype Particle = Particle(pos: Point, motion: Motion, life: int)

  /** Particles created per click. */
  const BurstSize := 60

  /** The life every particle is born with. */
  const FullLife := 100

  /** One visit of the frame to a particle: it moves one step along its motion
      (`glide` stands for the cosine/sine update) and loses one unit of life. */
  function Tick(p: Particle, glide: (Point, Motion) -> Point): Particle
  {
    p.(pos := glide(p.pos, p.motion), life := p.life - 1)
  }

  /** Every life in `ps` lies in 1..bound. */
  predicate Bounded(ps: seq<Particle>, bound: int)
  {
    forall i :: 0 <= i < |ps| ==> 1 <= ps[i].life <= bound
  }

  /** Between frames every particle in the collection is alive and no older than at birth. */
  predicate Lively(ps: seq<Particle>)
  {
    Bounded(ps, FullLife)
  }

  /** Every life in `ps` equals `life`. */
  predicate Uniform(ps: seq<Particle>, life: int)
  {
    forall i :: 0 <= i < |ps| ==> ps[i].life == life
  }

  /** The sum of the remaining lives. */
  function Weight(ps: seq<Particle>): int
  {
    if ps == [] then 0 else ps[0].life + Weight(ps[1..])
  }

  // ---------------------------------------------------------------------------
  // One frame as the program runs it: `forEach` over the collection while
  // `splice` removes the expired particle from under the iteration.
  // ---------------------------------------------------------------------------

  /** The collection after one frame. The head is visited and ticked; if it
      expired it is spliced out, the next particle slides into its slot, the
      iteration moves on past that slot, and so the next particle is left
      untouched this frame. */
  function Sweep(ps: seq<Particle>, glide: (Point, Motion) -> Point): (r: seq<Particle>)
    ensures |r| <= |ps|
    decreases |ps|
  {
    if ps == [] then []
    else if Tick(ps[0], glide).life > 0 then [Tick(ps[0], glide)] + Sweep(ps[1..], glide)
    else if |ps| == 1 then []
    else [ps[1]] + Sweep(ps[2..], glide)
  }

  /** `n` frames in a row with no click in between. */
  function Frames(ps: seq<Particle>, n: nat, glide: (Point, Motion) -> Point): seq<Particle>
  {
    if n == 0 then ps else Sweep(Frames(ps, n - 1, glide), glide)
  }

  /** What a frame does to one particle. */
  datatype Fate = Moved | Spliced | Skipped

  /** The fate of each particle of `ps` in one frame. */
  function Fates(ps: seq<Particle>, glide: (Point, Motion) -> Point): (fs: seq<Fate>)
    ensures |fs| == |ps|
    decreases |ps|
  {
    if ps == [] then []
    else if Tick(ps[0], glide).life > 0 then [Moved] + Fates(ps[1..], glide)
    else if |ps| == 1 then [Spliced]
    else [Spliced, Skipped] + Fates(ps[2..], glide)
  }

  /** The rule a frame follows at slot `i`: the particle is skipped exactly when
      the one before it was spliced out; a particle that is visited is spliced
      out exactly when its ticked life is at most zero, and moved on otherwise. */
  predicate FateRuleAt(ps: seq<Particle>, fs: seq<Fate>, i: nat, glide: (Point, Motion) -> Point)
    requires i < |fs| == |ps|
  {
    && (fs[i] == Skipped <==> i > 0 && fs[i - 1] == Spliced)
    && (fs[i] != Skipped ==> (fs[i] == Spliced <==> Tick(ps[i], glide).life <= 0))
  }

  predicate FrameRule(ps: seq<Particle>, fs: seq<Fate>, glide: (Point, Motion) -> Point)
  {
    && |fs| == |ps|
    && forall i: nat :: i < |fs| ==> FateRuleAt(ps, fs, i, glide)
  }

  /** The collection left when each particle meets its fate: moved particles
      ticked, spliced ones dropped, skipped ones unchanged, order kept. */
  function Survivors(ps: seq<Particle>, fs: seq<Fate>, glide: (Point, Motion) -> Point): seq<Particle>
    requires |fs| == |ps|
    decreases |ps|
  {
    if ps == [] then []
    else
      var rest := Survivors(ps[1..], fs[1..], glide);
      match fs[0]
      case Moved => [Tick(ps[0], glide)] + rest
      case Spliced => rest
      case Skipped => [ps[0]] + rest
  }

  lemma {:induction false} FatesFollowRule(ps: seq<Particle>, glide: (Point, Motion) -> Point)
    ensures FrameRule(ps, Fates(ps, glide), glide)
    decreases |ps|
  {
    var fs := Fates(ps, glide);
    if ps == [] {
    } else if Tick(ps[0], glide).life > 0 {
      var tail := Fates(ps[1..], glide);
      FatesFollowRule(ps[1..], glide);
      assert fs == [Moved] + tail;
      forall i: nat | i < |fs|
        ensures FateRuleAt(ps, fs, i, glide)
      {
        if i > 0 {
          assert FateRuleAt(ps[1..], tail, i - 1, glide);
          assert ps[i] == ps[1..][i - 1];
        }
      }
    } else if |ps| == 1 {
      assert FateRuleAt(ps, fs, 0, glide);
    } else {
      var tail := Fates(ps[2..], glide);
      FatesFollowRule(ps[2..], glide);
      assert fs == [Spliced, Skipped] + tail;
      forall i: nat | i < |fs|
        ensures FateRuleAt(ps, fs, i, glide)
      {
        if i > 1 {
          assert FateRuleAt(ps[2..], tail, i - 2, glide);
          assert ps[i] == ps[2..][i - 2];
        }
      }
    }
  }

  lemma {:induction false} SweepIsSurvivors(ps: seq<Particle>, glide: (Point, Motion) -> Point)
    ensures Sweep(ps, glide) == Survivors(ps, Fates(ps, glide), glide)
    decreases |ps|
  {
    if ps == [] {
    } else if Tick(ps[0], glide).life > 0 {
      SweepIsSurvivors(ps[1..], glide);
      assert Fates(ps, glide)[1..] == Fates(ps[1..], glide);
    } else if |ps| == 1 {
    } else {
      SweepIsSurvivors(ps[2..], glide);
      var fs := Fates(ps, glide);
      assert fs[1..][1..] == Fates(ps[2..], glide);
      assert ps[1..][1..] == ps[2..];
    }
  }

  /** One frame, described particle by particle: the result is what is left when
      every particle meets the fate the frame rule gives it. */
  lemma FrameByFate(ps: seq<Particle>, glide: (Point, Motion) -> Point)
    ensures FrameRule(ps, Fates(ps, glide), glide)
    ensures Sweep(ps, glide) == Survivors(ps, Fates(ps, glide), glide)
  {
    FatesFollowRule(ps, glide);
    SweepIsSurvivors(ps, glide);
  }

  lemma {:induction false} SameFateAt(ps: seq<Particle>, fs: seq<Fate>, gs: seq<Fate>, k: nat, glide: (Point, Motion) -> Point)
    requires FrameRule(ps, fs, glide) && FrameRule(ps, gs, glide) && k < |fs|
    ensures fs[k] == gs[k]
  {
    if k > 0 {
      SameFateAt(ps, fs, gs, k - 1, glide);
    }
    assert FateRuleAt(ps, fs, k, glide) && FateRuleAt(ps, gs, k, glide);
  }

  /** The frame rule leaves no choice: it fixes every particle's fate. */
  lemma FrameRuleIsDeterministic(ps: seq<Particle>, fs: seq<Fate>, gs: seq<Fate>, glide: (Point, Motion) -> Point)
    requires FrameRule(ps, fs, glide) && FrameRule(ps, gs, glide)
    ensures fs == gs
  {
    forall k | 0 <= k < |fs|
      ensures fs[k] == gs[k]
    {
      SameFateAt(ps, fs, gs, k, glide);
    }
  }

  /** The number of particles a frame keeps under fates `fs`: all but the spliced ones. */
  function Kept(fs: seq<Fate>): nat
  {
    if fs == [] then 0 else (if fs[0] == Spliced then 0 else 1) + Kept(fs[1..])
  }

  /** The particle right after a spliced one is skipped: it is neither ticked nor
      removed, and it lands unchanged in the slot given by the number of particles
      before it that the frame kept. So two particles adjacent at the start of a
      frame are never both removed by it. */
  lemma {:induction false} NeighbourOfSplicedSurvives(ps: seq<Particle>, i: nat, glide: (Point, Motion) -> Point)
    requires i + 1 < |ps|
    requires Fates(ps, glide)[i] == Spliced
    ensures Fates(ps, glide)[i + 1] == Skipped
    ensures Kept(Fates(ps, glide)[..i + 1]) < |Sweep(ps, glide)|
    ensures Sweep(ps, glide)[Kept(Fates(ps, glide)[..i + 1])] == ps[i + 1]
  {
    FrameByFate(ps, glide);
    assert FateRuleAt(ps, Fates(ps, glide), i + 1, glide);
    SkippedSurvives(ps, Fates(ps, glide), i + 1, glide);
  }

  lemma {:induction false} SkippedSurvives(ps: seq<Particle>, fs: seq<Fate>, i: nat, glide: (Point, Motion) -> Point)
    requires |fs| == |ps| && i < |ps| && fs[i] == Skipped
    ensures Kept(fs[..i]) < |Survivors(ps, fs, glide)|
    ensures Survivors(ps, fs, glide)[Kept(fs[..i])] == ps[i]
    decreases |ps|
  {
    if i > 0 {
      SkippedSurvives(ps[1..], fs[1..], i - 1, glide);
      assert fs[..i][1..] == fs[1..][..i - 1];
    }
  }

  /** A frame keeps the collection lively: visited survivors still have life left,
      and skipped particles are unchanged. */
  lemma {:induction false} SweepKeepsLively(ps: seq<Particle>, glide: (Point, Motion) -> Point)
    requires Lively(ps)
    ensures Lively(Sweep(ps, glide))
    decreases |ps|
  {
    if ps == [] {
    } else if Tick(ps[0], glide).life > 0 {
      SweepKeepsLively(ps[1..], glide);
    } else if |ps| == 1 {
    } else {
      SweepKeepsLively(ps[2..], glide);
    }
  }

  lemma {:induction false} WeightOfLively(ps: seq<Particle>)
    requires Lively(ps)
    ensures Weight(ps) >= |ps|
    decreases |ps|
  {
    if ps != [] {
      WeightOfLively(ps[1..]);
    }
  }

  /** A frame over a nonempty lively collection always burns at least one unit of
      life: the first particle is always visited. */
  lemma {:induction false} SweepBurnsLife(ps: seq<Particle>, glide: (Point, Motion) -> Point)
    requires Lively(ps)
    ensures Weight(Sweep(ps, glide)) <= Weight(ps) - (if ps == [] then 0 else 1)
    decreases |ps|
  {
    if ps == [] {
    } else if Tick(ps[0], glide).life > 0 {
      SweepBurnsLife(ps[1..], glide);
    } else if |ps| == 1 {
    } else {
      SweepBurnsLife(ps[2..], glide);
      WeightOfLively(ps[2..]);
      assert Weight(ps) == ps[0].life + ps[1].life + Weight(ps[2..]);
    }
  }

  lemma {:induction false} FramesDrain(ps: seq<Particle>, n: nat, glide: (Point, Motion) -> Point)
    requires Lively(ps)
    ensures Lively(Frames(ps, n, glide))
    ensures Frames(ps, n, glide) == [] || Weight(Frames(ps, n, glide)) <= Weight(ps) - n
  {
    if n > 0 {
      FramesDrain(ps, n - 1, glide);
      var before := Frames(ps, n - 1, glide);
      SweepKeepsLively(before, glide);
      SweepBurnsLife(before, glide);
    }
  }

  /** Once clicks stop, the collection is empty after at most as many frames as
      the sum of the remaining lives: no particle is skipped forever. */
  lemma EveryParticleDies(ps: seq<Particle>, n: nat, glide: (Point, Motion) -> Point)
    requires Lively(ps)
    requires n >= Weight(ps)
    ensures Frames(ps, n, glide) == []
  {
    FramesDrain(ps, n, glide);
    var rest := Frames(ps, n, glide);
    if rest != [] {
      WeightOfLively(rest);
      assert false;
    }
  }

  /** Frames with clicks in between: before the k-th frame, the particles of
      `clicks[k]` (the bursts of the clicks since the previous frame) are pushed
      at the end of the collection. */
  function Animate(ps: seq<Particle>, clicks: seq<seq<Particle>>, glide: (Point, Motion) -> Point): seq<Particle>
    decreases |clicks|
  {
    if clicks == [] then ps else Animate(Sweep(ps + clicks[0], glide), clicks[1..], glide)
  }

  /** The number of particles pushed by `clicks`. */
  function Clicked(clicks: seq<seq<Particle>>): nat
  {
    if clicks == [] then 0 else |clicks[0]| + Clicked(clicks[1..])
  }

  /** Particles pushed at the end do not change what a frame does to the particles
      already there: their result comes first, unchanged, and at most as many
      particles as were pushed follow it. */
  lemma {:induction false} SweepOfAppended(ps: seq<Particle>, qs: seq<Particle>, glide: (Point, Motion) -> Point)
    ensures |Sweep(ps, glide)| <= |Sweep(ps + qs, glide)| <= |Sweep(ps, glide)| + |qs|
    ensures Sweep(ps + qs, glide)[..|Sweep(ps, glide)|] == Sweep(ps, glide)
    decreases |ps|
  {
    if ps == [] {
      assert ps + qs == qs;
    } else if Tick(ps[0], glide).life > 0 {
      SweepOfAppended(ps[1..], qs, glide);
      assert (ps + qs)[1..] == ps[1..] + qs;
    } else if |ps| == 1 {
      if qs == [] {
        assert ps + qs == ps;
      } else {
        assert (ps + qs)[1] == qs[0];
        assert (ps + qs)[2..] == qs[1..];
      }
    } else {
      SweepOfAppended(ps[2..], qs, glide);
      assert (ps + qs)[1] == ps[1];
      assert (ps + qs)[2..] == ps[2..] + qs;
    }
  }

  /** A frame followed by `n` more is `n + 1` frames. */
  lemma {:induction false} FramesShift(ps: seq<Particle>, n: nat, glide: (Point, Motion) -> Point)
    ensures Frames(ps, n + 1, glide) == Frames(Sweep(ps, glide), n, glide)
  {
    if n > 0 {
      FramesShift(ps, n - 1, glide);
    }
  }

  /** Clicks between frames do not touch the particles that were there first:
      whatever is pushed behind them, after the frames of `clicks` they are still
      at the front of the collection, exactly as the same frames without any click
      would leave them, and everything behind them is at most what was behind
      them plus what was clicked in. */
  lemma {:induction false} OlderAtFront(ps: seq<Particle>, ys: seq<Particle>, clicks: seq<seq<Particle>>, glide: (Point, Motion) -> Point)
    ensures |Frames(ps, |clicks|, glide)| <= |Animate(ps + ys, clicks, glide)|
    ensures Animate(ps + ys, clicks, glide)[..|Frames(ps, |clicks|, glide)|] == Frames(ps, |clicks|, glide)
    ensures |Animate(ps + ys, clicks, glide)| <= |Frames(ps, |clicks|, glide)| + |ys| + Clicked(clicks)
    decreases |clicks|
  {
    if clicks == [] {
      assert (ps + ys)[..|ps|] == ps;
    } else {
      var pushed := ys + clicks[0];
      assert ps + ys + clicks[0] == ps + pushed;
      var a := Sweep(ps, glide);
      var next := Sweep(ps + pushed, glide);
      SweepOfAppended(ps, pushed, glide);
      var b := next[|a|..];
      assert next == a + b;
      OlderAtFront(a, b, clicks[1..], glide);
      FramesShift(ps, |clicks| - 1, glide);
    }
  }

  /** However often the user clicks meanwhile, after as many frames as the sum of
      the lives present now, the collection holds no more particles than were
      clicked in since. By `OlderAtFront` the particles present now stay at the
      front and age as if no click came, so they are the ones that are gone. */
  lemma ClicksDoNotShieldOlderParticles(ps: seq<Particle>, clicks: seq<seq<Particle>>, glide: (Point, Motion) -> Point)
    requires Lively(ps)
    requires |clicks| >= Weight(ps)
    ensures |Animate(ps, clicks, glide)| <= Clicked(clicks)
  {
    assert ps + [] == ps;
    OlderAtFront(ps, [], clicks, glide);
    EveryParticleDies(ps, |clicks|, glide);
  }

  /** While no particle of an all-equal collection is due, a frame ticks them all. */
  lemma {:induction false} UniformSweep(ps: seq<Particle>, life: int, glide: (Point, Motion) -> Point)
    requires Uniform(ps, life) && life > 1
    ensures |Sweep(ps, glide)| == |ps| && Uniform(Sweep(ps, glide), life - 1)
    decreases |ps|
  {
    if ps != [] {
      UniformSweep(ps[1..], life, glide);
    }
  }

  /** When every particle is due, a frame removes every other one: the first, third,
      fifth... go, and the ones that slid into their slots stay, untouched. */
  lemma {:induction false} AllDueSweep(ps: seq<Particle>, glide: (Point, Motion) -> Point)
    requires Uniform(ps, 1)
    ensures |Sweep(ps, glide)| == |ps| / 2 && Uniform(Sweep(ps, glide), 1)
    decreases |ps|
  {
    if |ps| >= 2 {
      AllDueSweep(ps[2..], glide);
    }
  }

  lemma {:induction false} UniformFrames(ps: seq<Particle>, life: int, n: nat, glide: (Point, Motion) -> Point)
    requires Uniform(ps, life) && n < life
    ensures |Frames(ps, n, glide)| == |ps| && Uniform(Frames(ps, n, glide), life - n)
  {
    if n > 0 {
      UniformFrames(ps, life, n - 1, glide);
      UniformSweep(Frames(ps, n - 1, glide), life - n + 1, glide);
    }
  }

  /** A burst alone on the canvas is NOT gone after its 100 frames of life: after
      frame 100 half of it (30 particles) is still there, and the last particle
      leaves only at frame 105. */
  lemma LoneBurstOutlivesItsLife(ps: seq<Particle>, glide: (Point, Motion) -> Point)
    requires |ps| == BurstSize && Uniform(ps, FullLife)
    ensures |Frames(ps, FullLife - 1, glide)| == BurstSize
    ensures |Frames(ps, FullLife, glide)| == 30
    ensures |Frames(ps, FullLife + 4, glide)| == 1
    ensures Frames(ps, FullLife + 5, glide) == []
  {
    UniformFrames(ps, FullLife, FullLife - 1, glide);
    var f := Frames(ps, FullLife - 1, glide);
    AllDueSweep(f, glide);
    AllDueSweep(Frames(ps, FullLife, glide), glide);
    AllDueSweep(Frames(ps, FullLife + 1, glide), glide);
    AllDueSweep(Frames(ps, FullLife + 2, glide), glide);
    AllDueSweep(Frames(ps, FullLife + 3, glide), glide);
    AllDueSweep(Frames(ps, FullLife + 4, glide), glide);
  }

  // ---------------------------------------------------------------------------
  // The frame as evidently intended: tick every particle, then drop the expired.
  // ---------------------------------------------------------------------------

  /** Every particle is ticked; exactly those whose ticked life is at most zero go. */
  function IntendedSweep(ps: seq<Particle>, glide: (Point, Motion) -> Point): (r: seq<Particle>)
    ensures |r| <= |ps|
    decreases |ps|
  {
    if ps == [] then []
    else
      var q := Tick(ps[0], glide);
      (if q.life > 0 then [q] else []) + IntendedSweep(ps[1..], glide)
  }

  function IntendedFrames(ps: seq<Particle>, n: nat, glide: (Point, Motion) -> Point): seq<Particle>
  {
    if n == 0 then ps else IntendedSweep(IntendedFrames(ps, n - 1, glide), glide)
  }

  lemma {:induction false} IntendedSweepAges(ps: seq<Particle>, bound: int, glide: (Point, Motion) -> Point)
    requires Bounded(ps, bound)
    ensures Bounded(IntendedSweep(ps, glide), bound - 1)
    decreases |ps|
  {
    if ps != [] {
      IntendedSweepAges(ps[1..], bound, glide);
    }
  }

  lemma BoundedByZeroIsEmpty(ps: seq<Particle>, bound: int)
    requires Bounded(ps, bound)
    ensures ps != [] ==> bound >= 1
  {
    if ps != [] {
      assert 1 <= ps[0].life <= bound;
    }
  }

  /** With the intended frame, every particle alive now is gone within 100 frames. */
  lemma {:induction false} IntendedFramesClear(ps: seq<Particle>, n: nat, glide: (Point, Motion) -> Point)
    requires Lively(ps) && n >= FullLife
    ensures IntendedFrames(ps, n, glide) == []
  {
    var k: nat := 0;
    while k < FullLife
      invariant k <= FullLife
      invariant Bounded(IntendedFrames(ps, k, glide), FullLife - k)
    {
      IntendedSweepAges(IntendedFrames(ps, k, glide), FullLife - k, glide);
      k := k + 1;
    }
    BoundedByZeroIsEmpty(IntendedFrames(ps, FullLife, glide), FullLife - k);
    while k < n
      invariant FullLife <= k <= n
      invariant IntendedFrames(ps, k, glide) == []
    {
      k := k + 1;
    }
  }

  // ---------------------------------------------------------------------------
  // The collection the click handler and the animation loop share.
  // ---------------------------------------------------------------------------

  class ParticleField {
    var particles: seq<Particle>

    ghost predicate Valid()
      reads this
    {
      Lively(particles)
    }

    constructor ()
      ensures Valid() && particles == []
    {
      particles := [];
    }

    /** A click at (x, y): a burst of particles is pushed at the end, one per
        motion drawn, all at the click point with full life. */
    method Spawn(x: real, y: real, motions: seq<Motion>)
      requires Valid()
      requires |motions| == BurstSize
      modifies this
      ensures Valid()
      ensures |particles| == |old(particles)| + BurstSize
      ensures particles[..|old(particles)|] == old(particles)
      ensures forall i :: 0 <= i < BurstSize ==>
        particles[|old(particles)| + i] == Particle(Point(x, y), motions[i], FullLife)
    {
      var i := 0;
      while i < BurstSize
        invariant 0 <= i <= BurstSize
        invariant |particles| == |old(particles)| + i
        invariant particles[..|old(particles)|] == old(particles)
        invariant forall k :: 0 <= k < i ==>
          particles[|old(particles)| + k] == Particle(Point(x, y), motions[k], FullLife)
        invariant Lively(particles)
      {
        particles := particles + [Particle(Point(x, y), motions[i], FullLife)];
        i := i + 1;
      }
    }

    /** One animation frame: walk the indices of the collection as it was when the
        frame began, skip an index past the current end, tick the particle in the
        slot, and splice it out of the collection when its life is spent. */
    method Frame(glide: (Point, Motion) -> Point)
      requires Valid()
      modifies this
      ensures Valid()
      ensures particles == Sweep(old(particles), glide)
    {
      ghost var start := particles;
      var n := |particles|;
      var i := 0;
      while i < n
        invariant 0 <= i <= n && |particles| <= n
        invariant i <= |particles| ==> Sweep(start, glide) == particles[..i] + Sweep(particles[i..], glide)
        invariant i > |particles| ==> Sweep(start, glide) == particles
      {
        if i < |particles| {
          ghost var before := particles;
          var p := Tick(particles[i], glide);
          particles := particles[i := p];
          if p.life <= 0 {
            particles := particles[..i] + particles[i + 1..];
          }
          FrameStep(before, i, glide);
        }
        i := i + 1;
      }
      SweepKeepsLively(start, glide);
    }
  }

  /** The loop step of `Frame` agrees with one unfolding of `Sweep`. */
  lemma FrameStep(ps: seq<Particle>, i: nat, glide: (Point, Motion) -> Point)
    requires i < |ps|
    ensures
      var p := Tick(ps[i], glide);
      var qs := if p.life <= 0 then ps[i := p][..i] + ps[i := p][i + 1..] else ps[i := p];
      && (i + 1 <= |qs| ==> ps[..i] + Sweep(ps[i..], glide) == qs[..i + 1] + Sweep(qs[i + 1..], glide))
      && (i + 1 > |qs| ==> ps[..i] + Sweep(ps[i..], glide) == qs)
  {
    var p := Tick(ps[i], glide);
    var rest := ps[i..];
    assert rest[0] == ps[i];
    if p.life > 0 {
      var qs := ps[i := p];
      assert qs[..i + 1] == ps[..i] + [p];
      assert qs[i + 1..] == rest[1..];
    } else if |rest| == 1 {
      var qs := ps[i := p][..i] + ps[i := p][i + 1..];
      assert qs == ps[..i];
    } else {
      var qs := ps[i := p][..i] + ps[i := p][i + 1..];
      assert qs[..i + 1] == ps[..i] + [ps[i + 1]];
      assert qs[i + 1..] == rest[2..];
      assert rest[1] == ps[i + 1];
    }
  }
}
