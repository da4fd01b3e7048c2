/** `IndexState`: the frame-advance rule that turns accumulated milliseconds
    into a sprite-sheet index inside `[minI, maxI]`, with a one-shot phase delay,
    fluidity-scaled stepping and a single-subtraction wraparound. */
module IndexStates {
  import opened Wrappers
  import opened StateIds
  import opened FloatOps
  import Sprites

  /** The immutable, shareable definition of an index-driven state. Times are in
      milliseconds; `framesPerIncrement` is `1 / fluidity`. */
  datatype IndexState = IndexState(
    minI: nat,
    maxI: nat,
    nominalMspf: real,
    actualMspf: real,
    nextState: Option<StateID>,
    phase: real,
    framesPerIncrement: real)
  {
    /** What `New` establishes for a positive nominal frame time: the fluidity
        lies in (0, 1], so a step is at least one frame, and a displayed step
        lasts `framesPerIncrement` nominal frames. */
    predicate Valid() {
      0.0 < nominalMspf && 1.0 <= framesPerIncrement && actualMspf == nominalMspf * framesPerIncrement
    }

    /** The number of indices in `[minI, maxI]`. */
    function Width(): int {
      maxI - minI + 1
    }
  }

  /** The per-instance progress through an `IndexState`. */
  datatype IndexData = IndexData(index: nat, msElapsed: real, phaseDelay: real, reachedEnd: bool)

  /** The configuration error `new` rejects by panicking. */
  datatype ConfigError = FluidityOutOfRange

  predicate InRange(s: IndexState, d: IndexData) {
    s.minI <= d.index <= s.maxI
  }

  /** `IndexState::new`: the fluidity defaults to 1 and must lie in (0, 1]; the
      phase defaults to 0; `minI <= maxI` is not checked. */
  function New(minI: nat, maxI: nat, nominalMspf: real, nextState: Option<StateID>,
               phase: Option<real>, fluidity: Option<real>): (r: Result<IndexState, ConfigError>)
    ensures r.Failure? <==> (1.0 < fluidity.GetOr(1.0) || fluidity.GetOr(1.0) <= 0.0)
    ensures r.Success? ==>
      && r.value.minI == minI && r.value.maxI == maxI
      && r.value.nominalMspf == nominalMspf && r.value.nextState == nextState
      && r.value.phase == phase.GetOr(0.0)
      && r.value.actualMspf * fluidity.GetOr(1.0) == nominalMspf
      && r.value.framesPerIncrement * fluidity.GetOr(1.0) == 1.0
    ensures r.Success? && fluidity.None? ==>
      r.value.actualMspf == nominalMspf && r.value.framesPerIncrement == 1.0
    ensures r.Success? && 0.0 < nominalMspf ==> r.value.Valid()
  {
    var f := fluidity.GetOr(1.0);
    if 1.0 < f || f <= 0.0 then
      Failure(FluidityOutOfRange)
    else
      var s := IndexState(minI, maxI, nominalMspf, nominalMspf / f, nextState, phase.GetOr(0.0), 1.0 / f);
      ReciprocalFacts(nominalMspf, f);
      Success(s)
  }

  lemma ReciprocalFacts(m: real, f: real)
    requires 0.0 < f <= 1.0
    ensures 1.0 <= 1.0 / f
    ensures m / f == m * (1.0 / f)
    ensures m / f * f == m && 1.0 / f * f == 1.0
  {
    DivMul(1.0, f);
  }

  /** `start` / `IndexData::new`: fresh data for entering the state. */
  function Start(s: IndexState): (d: IndexData)
    ensures d.index == s.minI && d.msElapsed == 0.0 && d.phaseDelay == s.phase && !d.reachedEnd
    ensures s.minI <= s.maxI ==> InRange(s, d)
    ensures NextState(s, d).Some? <==> s.nextState.Some? && s.maxI <= s.minI
  {
    IndexData(s.minI, 0.0, s.phase, false)
  }

  /** The phase gate: while a delay is pending and the accumulated time has
      not passed it, no frame advances. */
  predicate Gated(d: IndexData) {
    0.0 < d.phaseDelay && !(d.msElapsed > d.phaseDelay)
  }

  /** The time that counts toward frames once the gate has opened. */
  function EffectiveTime(d: IndexData): real {
    if 0.0 < d.phaseDelay then d.msElapsed - d.phaseDelay else d.msElapsed
  }

  /** The frame count as if the animation ran at full fluidity. */
  function NominalFrames(s: IndexState, t: real): (n: int)
    requires s.Valid()
    ensures n as real * s.nominalMspf <= t < n as real * s.nominalMspf + s.nominalMspf
  {
    DivMul(t, s.nominalMspf);
    ScaleWithinOne(t, s.nominalMspf, t / s.nominalMspf, (t / s.nominalMspf).Floor as real);
    (t / s.nominalMspf).Floor
  }

  /** The frame count reached after `j` whole increments of
      `framesPerIncrement` frames. */
  function Increments(s: IndexState, j: int): real {
    j as real * s.framesPerIncrement
  }

  /** The step actually applied: the nominal count rounded down to whole
      increments of `framesPerIncrement`, then cast to `usize`. For a
      non-negative count it is the whole-increment frame count just below the
      nominal count (the largest `j` increments that fit), cast to `usize`;
      it never exceeds the nominal count, lags it by less than one increment
      plus one, and equals it at full fluidity. */
  function AppliedFrames(s: IndexState, n: int): (k: nat)
    requires s.Valid()
    ensures 0 <= n ==> exists j: nat ::
      Increments(s, j) <= n as real < Increments(s, j) + s.framesPerIncrement
      && k == ToUsize(Increments(s, j))
    ensures n <= 0 ==> k == 0
    ensures 0 <= n ==> k <= n && (n - k) as real < s.framesPerIncrement + 1.0
    ensures s.framesPerIncrement == 1.0 ==> k == if n < 0 then 0 else n
  {
    var q := (n as real / s.framesPerIncrement).Floor;
    IncrementBracket(n as real, s.framesPerIncrement, q);
    ToUsize(Increments(s, q))
  }

  /** The number of whole increments of `f` that fit in `x` brackets it. */
  lemma IncrementBracket(x: real, f: real, q: int)
    requires 1.0 <= f && q == (x / f).Floor
    ensures q as real * f <= x < q as real * f + f
    ensures 0.0 <= x ==> 0 <= q
  {
    DivMul(x, f);
    ScaleWithinOne(x, f, x / f, q as real);
    ProductSign(q as real, f);
    ProductSign((q + 1) as real, f);
  }

  /** When an increment is a whole number `m` of frames, the applied step is a
      multiple of `m`, and for a non-negative nominal count it is the largest
      such multiple not above that count. */
  lemma AppliedWholeIncrements(s: IndexState, n: int, m: nat)
    requires s.Valid() && 1 <= m && s.framesPerIncrement == m as real
    ensures AppliedFrames(s, n) % m == 0
    ensures 0 <= n ==> AppliedFrames(s, n) <= n < AppliedFrames(s, n) + m
  {
    if 0 <= n {
      var q := (n as real / s.framesPerIncrement).Floor;
      IncrementBracket(n as real, s.framesPerIncrement, q);
      WholeMultiple(q, m, Increments(s, q));
    }
  }

  /** A nominal count of less than one increment applies no frame at all. */
  lemma BelowOneIncrement(s: IndexState, n: int)
    requires s.Valid() && n as real < s.framesPerIncrement
    ensures AppliedFrames(s, n) == 0
  {
    var q := (n as real / s.framesPerIncrement).Floor;
    IncrementBracket(n as real, s.framesPerIncrement, q);
    BelowOneFactor(q, s.framesPerIncrement, Increments(s, q));
  }

  lemma BelowOneFactor(q: int, f: real, x: real)
    requires 0.0 < f && x == q as real * f && x < f
    ensures x <= 0.0
  {
    ProductSign((q - 1) as real, f);
    ProductSign(q as real, f);
  }

  /** `j` increments of `m` whole frames are `j * m` frames, a multiple of `m`. */
  lemma WholeMultiple(j: nat, m: nat, x: real)
    requires 1 <= m && x == j as real * m as real
    ensures x == (j * m) as real && ToUsize(x) == j * m && (j * m) % m == 0
  {
  }

  lemma ProductSign(q: real, y: real)
    requires 0.0 < y
    ensures q < 0.0 ==> q * y < 0.0
    ensures 0.0 <= q ==> 0.0 <= q * y
  {
  }

  /** The single-subtraction wraparound of `maybe_increment`. Within the range
      the index advances by exactly `k`; past `maxI` it drops by one range width
      and cannot fall below `minI`; from inside the range a step of at most one
      width stays inside. */
  function Wrap(s: IndexState, index: nat, k: nat): (i: nat)
    ensures index + k <= s.maxI ==> i == index + k
    ensures s.maxI < index + k ==> s.minI <= i && i == index + k - s.Width()
    ensures s.minI <= index <= s.maxI && k <= s.Width() ==> s.minI <= i <= s.maxI
  {
    var next := index + k;
    if next > s.maxI then next - s.maxI + s.minI - 1 else next
  }

  /** `maybe_increment` as a function of the data before the call. */
  function Increment(s: IndexState, d: IndexData): IndexData
    requires s.Valid()
  {
    if Gated(d) then d
    else
      var n := NominalFrames(s, EffectiveTime(d));
      IndexData(
        index := Wrap(s, d.index, AppliedFrames(s, n)),
        msElapsed := Rem(d.msElapsed, s.actualMspf),
        phaseDelay := if 0.0 < d.phaseDelay then 0.0 else d.phaseDelay,
        reachedEnd := d.reachedEnd || s.maxI <= d.index + ToUsize(n as real))
  }

  /** What one step does: a gated step changes nothing; otherwise the delay is
      consumed (reset to zero), `reachedEnd` is sticky and set exactly when the
      nominal next index reaches `maxI`, the kept time is the remainder of the
      whole accumulated time, delay included, modulo the displayed frame time,
      which for a non-negative time is less than one displayed frame, and the
      index is the wrapped applied step. */
  lemma IncrementBehaviour(s: IndexState, d: IndexData)
    requires s.Valid()
    ensures Gated(d) ==> Increment(s, d) == d
    ensures !Gated(d) ==> Increment(s, d).phaseDelay <= 0.0
    ensures !Gated(d) && 0.0 < d.phaseDelay ==> Increment(s, d).phaseDelay == 0.0
    ensures d.phaseDelay <= 0.0 ==> Increment(s, d).phaseDelay == d.phaseDelay
    ensures d.reachedEnd ==> Increment(s, d).reachedEnd
    ensures !Gated(d) && 0.0 <= d.msElapsed ==>
      && 0.0 <= Increment(s, d).msElapsed < s.actualMspf
      && (Increment(s, d).reachedEnd
          <==> d.reachedEnd || s.maxI <= d.index + NominalFrames(s, EffectiveTime(d)))
    ensures !Gated(d) ==> Increment(s, d).msElapsed == Rem(d.msElapsed, s.actualMspf)
    ensures !Gated(d) ==>
      Increment(s, d).index == Wrap(s, d.index, AppliedFrames(s, NominalFrames(s, EffectiveTime(d))))
  {
  }

  /** One `update` tick on the data: accumulate the delta, then step. */
  function Tick(s: IndexState, d: IndexData, deltaMs: real): IndexData
    requires s.Valid()
  {
    Increment(s, d.(msElapsed := d.msElapsed + deltaMs))
  }

  /** `maybe_increment`, assigning the fields of the data in the source's order. */
  method MaybeIncrement(s: IndexState, data: IndexData) returns (d: IndexData)
    requires s.Valid()
    ensures d == Increment(s, data)
  {
    d := data;
    var effective := d.msElapsed;
    if 0.0 < d.phaseDelay {
      if !(d.msElapsed > d.phaseDelay) {
        return;
      }
      effective := effective - d.phaseDelay;
      d := d.(phaseDelay := 0.0);
    }
    var nominal := NominalFrames(s, effective);
    var nominalNext := d.index + ToUsize(nominal as real);
    if nominalNext >= s.maxI {
      d := d.(reachedEnd := true);
    }
    var numFrames := AppliedFrames(s, nominal);
    d := d.(msElapsed := Rem(d.msElapsed, s.actualMspf));
    var next := d.index + numFrames;
    d := d.(index := if next > s.maxI then next - s.maxI + s.minI - 1 else next);
  }

  /** `update`: accumulate the elapsed time, step, and show the resulting frame
      on the sprite. */
  method Update(s: IndexState, data: IndexData, deltaMs: real, sprite: Sprites.TextureAtlas)
    returns (d: IndexData)
    requires s.Valid()
    modifies sprite`index
    ensures d == Tick(s, data, deltaMs)
    ensures sprite.index == d.index
  {
    d := data.(msElapsed := data.msElapsed + deltaMs);
    d := MaybeIncrement(s, d);
    sprite.SetIndex(d.index);
  }

  /** `next_state`: a configured successor is reported once the index has
      reached `maxI` or the nominal position has reached the end; a looping
      state never reports one. */
  function NextState(s: IndexState, d: IndexData): (r: Option<StateID>)
    ensures s.nextState.None? ==> r.None?
    ensures s.nextState.Some? ==> (r.Some? <==> s.maxI <= d.index || d.reachedEnd)
    ensures r.Some? ==> r == s.nextState
  {
    match s.nextState
    case None => None
    case Some(next) => if d.index >= s.maxI || d.reachedEnd then Some(next) else None
  }
}
