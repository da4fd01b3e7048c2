/** Properties of `IndexState` over several ticks, and the behaviour of the
    frame-advance rule on concrete configurations. */
module IndexTiming {
  import opened Wrappers
  import opened StateIds
  import opened FloatOps
  import opened IndexStates

  /** The data after a sequence of `update` ticks. */
  function Run(s: IndexState, d: IndexData, deltas: seq<real>): IndexData
    requires s.Valid()
    decreases |deltas|
  {
    if deltas == [] then d else Run(s, Tick(s, d, deltas[0]), deltas[1..])
  }

  function Sum(deltas: seq<real>): real
    decreases |deltas|
  {
    if deltas == [] then 0.0 else deltas[0] + Sum(deltas[1..])
  }

  predicate AllNonNegative(deltas: seq<real>) {
    forall i :: 0 <= i < |deltas| ==> 0.0 <= deltas[i]
  }

  /** `n` whole frames of `m` ms, as repeated addition. */
  function Times(n: nat, m: real): real
    decreases n
  {
    if n == 0 then 0.0 else Times(n - 1, m) + m
  }

  lemma {:induction false} TimesIsProduct(n: nat, m: real)
    ensures Times(n, m) == n as real * m
    decreases n
  {
    if n > 0 {
      TimesIsProduct(n - 1, m);
      SplitProduct((n - 1) as real, 1.0, m);
      assert (n - 1) as real + 1.0 == n as real;
    }
  }

  lemma SplitProduct(a: real, b: real, y: real)
    ensures (a + b) * y == a * y + b * y
  {
  }

  lemma {:induction false} TimesAdd(a: nat, b: nat, m: real)
    ensures Times(a + b, m) == Times(a, m) + Times(b, m)
    decreases b
  {
    if b > 0 {
      TimesAdd(a, b - 1, m);
    }
  }

  lemma {:induction false} TimesMonotone(a: nat, b: nat, m: real)
    requires a <= b && 0.0 <= m
    ensures Times(a, m) <= Times(b, m)
    decreases b
  {
    if a < b {
      TimesMonotone(a, b - 1, m);
    }
  }

  /** The instant, on the nominal timeline, that the data stands for: whole
      frames shown plus the leftover time held back for the next tick. */
  function Position(s: IndexState, d: IndexData): real {
    Times(d.index, s.nominalMspf) + d.msElapsed
  }

  /** At full fluidity with no pending phase delay, a tick that does not reach
      past `maxI` advances the position by exactly the elapsed time: no
      sub-frame time is lost or invented, and the index does not decrease. */
  lemma TickConservesTime(s: IndexState, d: IndexData, deltaMs: real)
    requires s.Valid() && s.framesPerIncrement == 1.0
    requires d.phaseDelay <= 0.0 && 0.0 <= d.msElapsed && 0.0 <= deltaMs
    requires Position(s, d) + deltaMs < Times(s.maxI + 1, s.nominalMspf)
    ensures Position(s, Tick(s, d, deltaMs)) == Position(s, d) + deltaMs
    ensures Tick(s, d, deltaMs).phaseDelay == d.phaseDelay
    ensures 0.0 <= Tick(s, d, deltaMs).msElapsed < s.nominalMspf
    ensures d.index <= Tick(s, d, deltaMs).index
  {
    var n := TickFrames(s, d, deltaMs);
    NotPastEnd(d.index, n, s.maxI + 1, s.nominalMspf, d.msElapsed + deltaMs);
    TickIndexWithinRange(s, d, deltaMs);
    TickKeptTime(s, d, deltaMs);
    TimesAdd(d.index, n, s.nominalMspf);
  }

  /** The nominal frames of a non-negative tick, as a count and as time. */
  lemma TickFrames(s: IndexState, d: IndexData, deltaMs: real) returns (n: nat)
    requires s.Valid() && 0.0 <= d.msElapsed + deltaMs
    ensures n == NominalFrames(s, d.msElapsed + deltaMs)
    ensures Times(n, s.nominalMspf) <= d.msElapsed + deltaMs
    ensures Rem(d.msElapsed + deltaMs, s.nominalMspf) == d.msElapsed + deltaMs - Times(n, s.nominalMspf)
  {
    var k := NominalFrames(s, d.msElapsed + deltaMs);
    NonNegativeFrames(k, s.nominalMspf, d.msElapsed + deltaMs);
    n := k;
    TimesIsProduct(n, s.nominalMspf);
    RemOfFrames(d.msElapsed + deltaMs, s.nominalMspf, n);
  }

  lemma TickIndexWithinRange(s: IndexState, d: IndexData, deltaMs: real)
    requires s.Valid() && s.framesPerIncrement == 1.0
    requires d.phaseDelay <= 0.0
    requires 0 <= NominalFrames(s, d.msElapsed + deltaMs)
    requires d.index + NominalFrames(s, d.msElapsed + deltaMs) <= s.maxI
    ensures Tick(s, d, deltaMs).index == d.index + NominalFrames(s, d.msElapsed + deltaMs)
  {
    var d1 := d.(msElapsed := d.msElapsed + deltaMs);
    var n := NominalFrames(s, d1.msElapsed);
    assert !Gated(d1) && EffectiveTime(d1) == d1.msElapsed;
    assert AppliedFrames(s, n) == n;
    assert Wrap(s, d.index, n) == d.index + n;
    assert Increment(s, d1).index == Wrap(s, d.index, AppliedFrames(s, n));
  }

  lemma TickKeptTime(s: IndexState, d: IndexData, deltaMs: real)
    requires s.Valid() && s.framesPerIncrement == 1.0
    requires d.phaseDelay <= 0.0 && 0.0 <= d.msElapsed + deltaMs
    ensures Tick(s, d, deltaMs).msElapsed == Rem(d.msElapsed + deltaMs, s.nominalMspf)
    ensures Tick(s, d, deltaMs).phaseDelay == d.phaseDelay
  {
    IncrementBehaviour(s, d.(msElapsed := d.msElapsed + deltaMs));
    FullFluidityMspf(s);
  }

  lemma FullFluidityMspf(s: IndexState)
    requires s.Valid() && s.framesPerIncrement == 1.0
    ensures s.actualMspf == s.nominalMspf
  {
  }

  /** The remainder of a non-negative time is what is left after its whole frames. */
  lemma RemOfFrames(t: real, m: real, n: int)
    requires 0.0 < m && 0.0 <= t && n == (t / m).Floor
    ensures Rem(t, m) == t - n as real * m
  {
  }

  /** A frame count whose next multiple lies above a non-negative time is
      itself non-negative. */
  lemma NonNegativeFrames(n: int, m: real, t: real)
    requires 0.0 < m && 0.0 <= t < n as real * m + m
    ensures 0 <= n
  {
    if n < 0 {
      ProductMonotone((n + 1) as real, 0.0, m);
      SplitProduct(n as real, 1.0, m);
    }
  }

  lemma ProductMonotone(a: real, b: real, y: real)
    requires a <= b && 0.0 < y
    ensures a * y <= b * y
  {
  }

  /** Frames that fit, together with the time they stand for, below the
      bound `mx` frames cannot reach past `mx`. */
  lemma NotPastEnd(di: nat, n: nat, mx: nat, m: real, t: real)
    requires 0.0 <= m && Times(n, m) <= t && Times(di, m) + t < Times(mx, m)
    ensures di + n < mx
  {
    if mx <= di + n {
      TimesMonotone(mx, di + n, m);
      TimesAdd(di, n, m);
    }
  }

  /** Over any sequence of non-negative ticks that stays within the range,
      the position advances by exactly the total elapsed time. */
  lemma {:induction false} RunConservesTime(s: IndexState, d: IndexData, deltas: seq<real>)
    requires s.Valid() && s.framesPerIncrement == 1.0
    requires d.phaseDelay <= 0.0 && 0.0 <= d.msElapsed < s.nominalMspf && AllNonNegative(deltas)
    requires Position(s, d) + Sum(deltas) < Times(s.maxI + 1, s.nominalMspf)
    ensures Position(s, Run(s, d, deltas)) == Position(s, d) + Sum(deltas)
    ensures 0.0 <= Run(s, d, deltas).msElapsed < s.nominalMspf
    ensures d.index <= Run(s, d, deltas).index
    decreases |deltas|
  {
    if deltas != [] {
      SumNonNegative(deltas[1..]);
      TickConservesTime(s, d, deltas[0]);
      var next := Tick(s, d, deltas[0]);
      assert AllNonNegative(deltas[1..]) by {
        forall i | 0 <= i < |deltas| - 1 ensures 0.0 <= deltas[1..][i] {
          assert deltas[1..][i] == deltas[i + 1];
        }
      }
      RunConservesTime(s, next, deltas[1..]);
    }
  }

  lemma {:induction false} SumNonNegative(deltas: seq<real>)
    requires AllNonNegative(deltas)
    ensures 0.0 <= Sum(deltas)
    decreases |deltas|
  {
    if deltas != [] {
      assert AllNonNegative(deltas[1..]) by {
        forall i | 0 <= i < |deltas| - 1 ensures 0.0 <= deltas[1..][i] {
          assert deltas[1..][i] == deltas[i + 1];
        }
      }
      SumNonNegative(deltas[1..]);
    }
  }

  /** How the elapsed time is split into ticks does not matter: at full
      fluidity the frames advanced equal the nominal frame count of the total
      time, the leftover time included. */
  lemma SplitIndependent(s: IndexState, d: IndexData, deltas: seq<real>)
    requires s.Valid() && s.framesPerIncrement == 1.0
    requires d.phaseDelay <= 0.0 && 0.0 <= d.msElapsed < s.nominalMspf && AllNonNegative(deltas)
    requires Position(s, d) + Sum(deltas) < Times(s.maxI + 1, s.nominalMspf)
    ensures Run(s, d, deltas).index == d.index + NominalFrames(s, d.msElapsed + Sum(deltas))
  {
    RunConservesTime(s, d, deltas);
    FramesFromRun(s, d, deltas);
  }

  /** The frame count of a run follows from the position it conserves. */
  lemma FramesFromRun(s: IndexState, d: IndexData, deltas: seq<real>)
    requires s.Valid() && 0.0 <= Run(s, d, deltas).msElapsed < s.nominalMspf
    requires d.index <= Run(s, d, deltas).index
    requires Position(s, Run(s, d, deltas)) == Position(s, d) + Sum(deltas)
    ensures Run(s, d, deltas).index == d.index + NominalFrames(s, d.msElapsed + Sum(deltas))
  {
    var r, total := Run(s, d, deltas), Sum(deltas);
    FramesFromPosition(s, d, r, total);
  }

  /** Data `r` that stands `total` ms after `d` on the nominal timeline, with
      less than one frame held back and no frame lost, has advanced by the
      nominal frame count of `d`'s leftover time plus `total`. */
  lemma FramesFromPosition(s: IndexState, d: IndexData, r: IndexData, total: real)
    requires s.Valid() && 0.0 <= r.msElapsed < s.nominalMspf && d.index <= r.index
    requires Position(s, r) == Position(s, d) + total
    ensures r.index == d.index + NominalFrames(s, d.msElapsed + total)
  {
    var j: nat := r.index - d.index;
    TimesAdd(d.index, j, s.nominalMspf);
    TimesIsProduct(j, s.nominalMspf);
    FloorOf(d.msElapsed + total, s.nominalMspf, j, r.msElapsed);
  }

  /** If `t` is `j` whole frames of `m` plus a remainder below `m`, then `j`
      is the nominal frame count of `t`. */
  lemma FloorOf(t: real, m: real, j: int, r: real)
    requires 0.0 < m && 0.0 <= r < m
    requires j as real * m + r == t
    ensures (t / m).Floor == j
  {
    DivSplit(j as real, m, r);
    FracBounds(r, m);
  }

  lemma DivSplit(a: real, m: real, r: real)
    requires 0.0 < m
    ensures (a * m + r) / m == a + r / m
  {
  }

  lemma FracBounds(r: real, m: real)
    requires 0.0 < m && 0.0 <= r < m
    ensures 0.0 <= r / m < 1.0
  {
    DivMul(r, m);
    ProductSign(r / m, m);
    ProductSign(r / m - 1.0, m);
  }

  /** `reached_end` stays set across any number of ticks. */
  lemma {:induction false} RunKeepsReachedEnd(s: IndexState, d: IndexData, deltas: seq<real>)
    requires s.Valid() && d.reachedEnd
    ensures Run(s, d, deltas).reachedEnd
    decreases |deltas|
  {
    if deltas != [] {
      RunKeepsReachedEnd(s, Tick(s, d, deltas[0]), deltas[1..]);
    }
  }

  /** A ten-frame state at 100 ms per nominal frame, stepping `stride` frames
      at a time (`stride` is `1 / fluidity`). */
  function TenFrames(next: Option<StateID>, phase: real, stride: real): IndexState {
    IndexState(0, 9, 100.0, 100.0 * stride, next, phase, stride)
  }

  /** With no fluidity or phase given, `New` builds the full-fluidity state. */
  lemma DefaultsFullFluidity()
    ensures New(0, 9, 100.0, None, None, None) == Success(TenFrames(None, 0.0, 1.0))
  {
    assert 100.0 / 1.0 == 100.0 * 1.0 && 1.0 / 1.0 == 1.0;
  }

  /** 1050 ms in one tick from frame 0 is ten frames: one past `maxI`, which
      wraps to `minI` with 50 ms carried over. */
  lemma WrapOneWidth()
    ensures var s := TenFrames(None, 0.0, 1.0);
      Tick(s, Start(s), 1050.0) == IndexData(0, 50.0, 0.0, true)
  {
    var s := TenFrames(None, 0.0, 1.0);
    assert NominalFrames(s, 1050.0) == 10 by {
      assert (1050.0 / 100.0).Floor == 10;
    }
    assert AppliedFrames(s, 10) == 10;
    assert Rem(1050.0, 100.0) == 50.0 by {
      assert (1050.0 / 100.0).Floor == 10;
    }
    assert Wrap(s, 0, 10) == 0;
  }

  /** With only one subtraction, 2050 ms in one tick from frame 0 leaves the
      index at 10, outside `[0, 9]`. */
  lemma WrapLeavesRange()
    ensures var s := TenFrames(None, 0.0, 1.0);
      Tick(s, Start(s), 2050.0).index == 10
  {
    var s := TenFrames(None, 0.0, 1.0);
    assert NominalFrames(s, 2050.0) == 20 by {
      assert (2050.0 / 100.0).Floor == 20;
    }
    assert AppliedFrames(s, 20) == 20;
    assert Wrap(s, 0, 20) == 10;
  }

  /** At half fluidity, 950 ms gives nine nominal frames, so the end is
      reached and the transition fires, while the index applied in steps of
      two frames has only reached 8. */
  lemma LowFluidityReachesEnd(idle: StateID)
    ensures New(0, 9, 100.0, Some(idle), None, Some(0.5)) == Success(TenFrames(Some(idle), 0.0, 2.0))
    ensures var s := TenFrames(Some(idle), 0.0, 2.0);
      var d := Tick(s, Start(s), 950.0);
      d.reachedEnd && d.index == 8 && NextState(s, d) == Some(idle)
  {
    var s := TenFrames(Some(idle), 0.0, 2.0);
    assert NominalFrames(s, 950.0) == 9 by {
      assert (950.0 / 100.0).Floor == 9;
    }
    assert AppliedFrames(s, 9) == 8 by {
      assert (9.0 / 2.0).Floor == 4;
    }
  }

  /** A 500 ms phase holds the first 400 ms tick; a further 250 ms advances by
      the 150 ms of excess, one frame, and consumes the delay. */
  lemma PhaseDelayThenAdvance()
    ensures var s := TenFrames(None, 500.0, 1.0);
      var d1 := Tick(s, Start(s), 400.0);
      d1 == IndexData(0, 400.0, 500.0, false)
      && Tick(s, d1, 250.0) == IndexData(1, 50.0, 0.0, false)
  {
    var s := TenFrames(None, 500.0, 1.0);
    assert NominalFrames(s, 150.0) == 1 by {
      assert (150.0 / 100.0).Floor == 1;
    }
    assert AppliedFrames(s, 1) == 1;
    assert Rem(650.0, 100.0) == 50.0 by {
      assert (650.0 / 100.0).Floor == 6;
    }
  }

  /** The remainder kept after the delay opens is taken from the whole
      accumulated time, delay included: with a 550 ms phase, 600 ms and then
      50 ms leave frame 0 and no carried time, although 100 ms, one full
      frame, has passed since the delay ended. */
  lemma PhaseRemainderIncludesDelay()
    ensures var s := TenFrames(None, 550.0, 1.0);
      var d1 := Tick(s, Start(s), 600.0);
      d1 == IndexData(0, 0.0, 0.0, false)
      && Tick(s, d1, 50.0) == IndexData(0, 50.0, 0.0, false)
  {
    var s := TenFrames(None, 550.0, 1.0);
    assert NominalFrames(s, 50.0) == 0 by {
      assert (50.0 / 100.0).Floor == 0;
    }
    assert AppliedFrames(s, 0) == 0;
    assert Rem(600.0, 100.0) == 0.0 by {
      assert (600.0 / 100.0).Floor == 6;
    }
    assert Rem(50.0, 100.0) == 50.0 by {
      assert (50.0 / 100.0).Floor == 0;
    }
  }

  /** A short tick at fluidity 0.3, where an increment is 10/3 frames and a
      displayed frame lasts 1000/3 ms. While the kept time is below 1000/3 ms,
      a tick under 200/3 ms brings at most three nominal frames, less than one
      increment, so no frame is applied; the remainder then drops the time
      counted so far. The index stays where it was and the end is not reached. */
  lemma ShortTickStalls(next: Option<StateID>, d: IndexData, deltaMs: real)
    requires d.phaseDelay <= 0.0 && 0.0 <= d.msElapsed < 1000.0 / 3.0 && d.index <= 5
    requires 0.0 <= deltaMs < 200.0 / 3.0
    ensures var s := TenFrames(next, 0.0, 10.0 / 3.0);
      var e := Tick(s, d, deltaMs);
      && e.index == d.index && e.reachedEnd == d.reachedEnd
      && e.phaseDelay == d.phaseDelay && 0.0 <= e.msElapsed < 1000.0 / 3.0
  {
    var s := TenFrames(next, 0.0, 10.0 / 3.0);
    var d1 := d.(msElapsed := d.msElapsed + deltaMs);
    var n := NominalFrames(s, d1.msElapsed);
    assert 0 <= n <= 3;
    BelowOneIncrement(s, n);
    IncrementBehaviour(s, d1);
  }

  /** At fluidity 0.3, an animation updated only by ticks under 200/3 ms never
      leaves its first frame and never reports its successor, however long it
      runs: each tick is either too short for a whole increment or is
      discarded by the remainder. */
  lemma {:induction false} FractionalFluidityStalls(idle: StateID, deltas: seq<real>)
    requires forall i :: 0 <= i < |deltas| ==> 0.0 <= deltas[i] < 200.0 / 3.0
    ensures New(0, 9, 100.0, Some(idle), None, Some(0.3)) == Success(TenFrames(Some(idle), 0.0, 10.0 / 3.0))
    ensures var s := TenFrames(Some(idle), 0.0, 10.0 / 3.0);
      var e := Run(s, Start(s), deltas);
      e.index == 0 && NextState(s, e).None?
  {
    var s := TenFrames(Some(idle), 0.0, 10.0 / 3.0);
    assert 100.0 / 0.3 == 100.0 * (10.0 / 3.0) && 1.0 / 0.3 == 10.0 / 3.0;
    ShortTicksNeverAdvance(Some(idle), Start(s), deltas);
  }

  lemma {:induction false} ShortTicksNeverAdvance(next: Option<StateID>, d: IndexData, deltas: seq<real>)
    requires d.phaseDelay <= 0.0 && 0.0 <= d.msElapsed < 1000.0 / 3.0 && d.index <= 5
    requires forall i :: 0 <= i < |deltas| ==> 0.0 <= deltas[i] < 200.0 / 3.0
    ensures var s := TenFrames(next, 0.0, 10.0 / 3.0);
      Run(s, d, deltas).index == d.index && Run(s, d, deltas).reachedEnd == d.reachedEnd
    decreases |deltas|
  {
    if deltas != [] {
      var s := TenFrames(next, 0.0, 10.0 / 3.0);
      ShortTickStalls(next, d, deltas[0]);
      assert forall i :: 0 <= i < |deltas| - 1 ==> deltas[1..][i] == deltas[i + 1];
      ShortTicksNeverAdvance(next, Tick(s, d, deltas[0]), deltas[1..]);
    }
  }
}
