/** Animation frames of src/messages/Image.cpp. */
module FrameSpec {
  const GIF_FRAME_LENGTH: int := 33

  /** The duration floor of readFrames: very fast frames are slowed down as browsers do. */
  function FrameDuration(delay: int): (d: int)
    ensures d >= 20
    ensures delay >= 20 ==> d == delay
    ensures delay <= 10 ==> d == 100
    ensures 10 < delay < 20 ==> d == 20
  {
    var duration := if delay <= 10 then 100 else delay;
    if duration < 20 then 20 else duration
  }

  ghost predicate Positive(durations: seq<int>) {
    forall i :: 0 <= i < |durations| ==> durations[i] > 0
  }

  /** The time at which the n-th frame starts, counted from the first. */
  function StartOf(durations: seq<int>, n: nat): int
    requires n <= |durations|
  {
    if n == 0 then 0 else StartOf(durations, n - 1) + durations[n - 1]
  }

  function Total(durations: seq<int>): int {
    StartOf(durations, |durations|)
  }

  lemma {:induction false} StartsGrow(durations: seq<int>, m: nat, n: nat)
    requires m <= n <= |durations| && Positive(durations)
    ensures StartOf(durations, m) + (n - m) <= StartOf(durations, n)
  {
    if m < n {
      StartsGrow(durations, m, n - 1);
    }
  }

  datatype Position = Position(index: nat, offset: int)

  ghost predicate PositionOk(durations: seq<int>, p: Position) {
    p.index < |durations| && 0 <= p.offset <= durations[p.index]
  }

  /** How far into the animation a position is. */
  function Elapsed(durations: seq<int>, p: Position): int
    requires p.index < |durations|
  {
    StartOf(durations, p.index) + p.offset
  }

  function NextIndex(i: nat, n: nat): (j: nat)
    requires i < n
    ensures j < n
  {
    if i + 1 == n then 0 else i + 1
  }

  lemma NextIsModulo(i: nat, n: nat)
    requires i < n
    ensures (i + 1) % n == NextIndex(i, n) && i % n == i
  {
    if i + 1 < n {
      SmallModulo(i + 1, n);
    }
    SmallModulo(i, n);
  }

  lemma SmallModulo(i: nat, n: nat)
    requires i < n
    ensures i % n == i
  {
  }

  /** `processOffset` from a valid index. */
  function Settle(durations: seq<int>, p: Position): Position
    requires Positive(durations) && p.index < |durations|
    decreases if p.offset < 0 then 0 else p.offset
  {
    if p.offset > durations[p.index] then
      Settle(durations, Position(NextIndex(p.index, |durations|), p.offset - durations[p.index]))
    else p
  }

  function Advance(durations: seq<int>, p: Position): Position
    requires Positive(durations) && p.index < |durations|
  {
    Settle(durations, p.(offset := p.offset + GIF_FRAME_LENGTH))
  }

  function Times(laps: int, total: int): int {
    laps * total
  }

  lemma TimesAdds(x: int, y: int, total: int)
    ensures Times(x, total) + Times(y, total) == Times(x + y, total)
    ensures Times(-x, total) == -Times(x, total) && Times(0, total) == 0 && Times(1, total) == total
  {
  }

  /** Two times are the same point of the loop. */
  ghost predicate SamePhase(a: int, b: int, total: int) {
    exists laps: int :: a == b + Times(laps, total)
  }

  lemma SamePhaseTransitive(a: int, b: int, c: int, total: int)
    requires SamePhase(a, b, total) && SamePhase(b, c, total)
    ensures SamePhase(a, c, total)
  {
    var x: int :| a == b + Times(x, total);
    var y: int :| b == c + Times(y, total);
    TimesAdds(x, y, total);
    assert a == c + Times(x + y, total);
  }

  lemma SamePhaseShift(a: int, b: int, shift: int, total: int)
    requires SamePhase(a, b, total)
    ensures SamePhase(a + shift, b + shift, total) && SamePhase(b, a, total)
  {
    var x: int :| a == b + Times(x, total);
    TimesAdds(x, 0, total);
    assert a + shift == b + shift + Times(x, total);
    assert b == a + Times(-x, total);
  }

  lemma SamePhaseReflexive(a: int, total: int)
    ensures SamePhase(a, a, total) && SamePhase(a - total, a, total)
  {
    TimesAdds(0, 1, total);
    TimesAdds(1, -1, total);
    assert a == a + Times(0, total);
    assert a - total == a + Times(-1, total);
  }

  lemma {:induction false} SettleKeepsPhase(durations: seq<int>, p: Position)
    requires Positive(durations) && p.index < |durations| && p.offset >= 0
    ensures PositionOk(durations, Settle(durations, p))
    ensures SamePhase(Elapsed(durations, Settle(durations, p)), Elapsed(durations, p), Total(durations))
    decreases p.offset
  {
    SamePhaseReflexive(Elapsed(durations, p), Total(durations));
    if p.offset > durations[p.index] {
      var next := Position(NextIndex(p.index, |durations|), p.offset - durations[p.index]);
      SettleKeepsPhase(durations, next);
      assert Elapsed(durations, next) == Elapsed(durations, p) - if next.index == 0 then Total(durations) else 0;
      SamePhaseTransitive(Elapsed(durations, Settle(durations, p)), Elapsed(durations, next),
        Elapsed(durations, p), Total(durations));
    }
  }

  function AdvanceMany(durations: seq<int>, p: Position, k: nat): Position
    requires Positive(durations) && PositionOk(durations, p)
    ensures PositionOk(durations, AdvanceMany(durations, p, k))
  {
    if k == 0 then p
    else
      var q := AdvanceMany(durations, p, k - 1);
      SettleKeepsPhase(durations, q.(offset := q.offset + GIF_FRAME_LENGTH));
      Advance(durations, q)
  }

  /** Playback never drifts: after k timer ticks the position in the animation is the start
      position plus k tick lengths, up to whole loops, with an offset within the current frame. */
  lemma {:induction false} PlaybackNeverDrifts(durations: seq<int>, p: Position, k: nat)
    requires Positive(durations) && PositionOk(durations, p)
    ensures var q := AdvanceMany(durations, p, k);
      && PositionOk(durations, q)
      && SamePhase(Elapsed(durations, q), Elapsed(durations, p) + k * GIF_FRAME_LENGTH, Total(durations))
  {
    if k == 0 {
      SamePhaseReflexive(Elapsed(durations, p), Total(durations));
    } else {
      PlaybackNeverDrifts(durations, p, k - 1);
      var q := AdvanceMany(durations, p, k - 1);
      var r := q.(offset := q.offset + GIF_FRAME_LENGTH);
      SettleKeepsPhase(durations, r);
      var target := Elapsed(durations, p) + (k - 1) * GIF_FRAME_LENGTH;
      SamePhaseShift(Elapsed(durations, q), target, GIF_FRAME_LENGTH, Total(durations));
      SamePhaseTransitive(Elapsed(durations, AdvanceMany(durations, p, k)), Elapsed(durations, r),
        target + GIF_FRAME_LENGTH, Total(durations));
    }
  }

  /** Hence copies of an image that are at the same phase once stay at the same phase. */
  lemma InStep(durations: seq<int>, p: Position, p': Position, k: nat)
    requires Positive(durations) && PositionOk(durations, p) && PositionOk(durations, p')
    requires SamePhase(Elapsed(durations, p), Elapsed(durations, p'), Total(durations))
    ensures SamePhase(Elapsed(durations, AdvanceMany(durations, p, k)),
                      Elapsed(durations, AdvanceMany(durations, p', k)), Total(durations))
  {
    var t := Total(durations);
    var q, q' := Elapsed(durations, AdvanceMany(durations, p, k)), Elapsed(durations, AdvanceMany(durations, p', k));
    var e, e', ticks := Elapsed(durations, p), Elapsed(durations, p'), k * GIF_FRAME_LENGTH;
    PlaybackNeverDrifts(durations, p, k);
    PlaybackNeverDrifts(durations, p', k);
    SamePhaseShift(e, e', ticks, t);
    SamePhaseTransitive(q, e + ticks, e' + ticks, t);
    SamePhaseShift(q', e' + ticks, 0, t);
    SamePhaseTransitive(q, e' + ticks, q', t);
  }

  lemma SamePhaseClose(a: int, b: int, total: int)
    requires SamePhase(a, b, total) && -total < a - b < total
    ensures a == b
  {
    var laps: int :| a == b + Times(laps, total);
    if laps > 0 {
      TimesAdds(laps - 1, 1, total);
      TimesGrow(laps - 1, total);
    } else if laps < 0 {
      TimesAdds(laps + 1, -1, total);
      TimesAdds(1, 0, total);
      TimesAdds(-laps - 1, 0, total);
      TimesGrow(-laps - 1, total);
    }
  }

  lemma TimesGrow(laps: nat, total: int)
    requires total >= 0
    ensures Times(laps, total) >= 0
  {
  }

  /** A frame is left only once its duration is exceeded, so an offset never returns to 0. */
  lemma {:induction false} SettleIsLate(durations: seq<int>, p: Position)
    requires Positive(durations) && p.index < |durations| && p.offset > 0
    ensures Settle(durations, p).offset > 0
    decreases p.offset
  {
    if p.offset > durations[p.index] {
      SettleIsLate(durations, Position(NextIndex(p.index, |durations|), p.offset - durations[p.index]));
    }
  }

  /** Which frame is shown once playback has started: at an instant `t` within the n-th frame, up to
      whole loops, it is the n-th one, and the offset is the time since its start. The end of a frame
      still belongs to it. */
  lemma FrameShown(durations: seq<int>, p: Position, k: nat, n: nat, t: int)
    requires Positive(durations) && PositionOk(durations, p) && n < |durations| && k > 0
    requires SamePhase(Elapsed(durations, p) + k * GIF_FRAME_LENGTH, t, Total(durations))
    requires StartOf(durations, n) < t <= StartOf(durations, n + 1)
    ensures AdvanceMany(durations, p, k) == Position(n, t - StartOf(durations, n))
  {
    var before := AdvanceMany(durations, p, k - 1);
    SettleIsLate(durations, before.(offset := before.offset + GIF_FRAME_LENGTH));
    var q := AdvanceMany(durations, p, k);
    var e, total := Elapsed(durations, q), Total(durations);
    PlaybackNeverDrifts(durations, p, k);
    SamePhaseTransitive(e, Elapsed(durations, p) + k * GIF_FRAME_LENGTH, t, total);
    StartsGrow(durations, 0, q.index);
    StartsGrow(durations, q.index + 1, |durations|);
    StartsGrow(durations, 0, n);
    StartsGrow(durations, n + 1, |durations|);
    SamePhaseClose(e, t, total);
    if q.index < n {
      StartsGrow(durations, q.index + 1, n);
    } else if n < q.index {
      StartsGrow(durations, n + 1, q.index);
    }
  }

  /** The offset a new animation starts with: that of the global timer, but at most a minute. */
  function StartOffset(durations: seq<int>, timerPosition: nat): int {
    if Total(durations) == 0 then 0
    else if timerPosition % Total(durations) < 60000 then timerPosition % Total(durations)
    else 60000
  }

  lemma StartOffsetOk(durations: seq<int>, timerPosition: nat)
    ensures StartOffset(durations, timerPosition) >= 0
  {
  }

  /** How far behind the global timer a new animation starts because of the cap. */
  function Lag(durations: seq<int>, timerPosition: nat): int
    requires Total(durations) > 0
  {
    timerPosition % Total(durations) - StartOffset(durations, timerPosition)
  }

  lemma StartPhase(durations: seq<int>, timerPosition: nat)
    requires Total(durations) > 0
    ensures 0 <= Lag(durations, timerPosition) < Total(durations)
    ensures Lag(durations, timerPosition) ==
      if timerPosition % Total(durations) <= 60000 then 0 else timerPosition % Total(durations) - 60000
    ensures Total(durations) <= 60000 ==> Lag(durations, timerPosition) == 0
    ensures SamePhase(StartOffset(durations, timerPosition),
        timerPosition - Lag(durations, timerPosition), Total(durations))
  {
    var total := Total(durations);
    var t := timerPosition;
    assert t % total == t + Times(-(t / total), total) by {
      TimesAdds(t / total, 0, total);
      assert t == Times(t / total, total) + t % total;
    }
    var lag := Lag(durations, t);
    assert StartOffset(durations, t) == t - lag + Times(-(t / total), total);
  }

  /** Where a new animation starts. */
  function Created(durations: seq<int>, timerPosition: nat): (p: Position)
    requires Positive(durations) && durations != []
    ensures PositionOk(durations, p)
  {
    StartOffsetOk(durations, timerPosition);
    SettleKeepsPhase(durations, Position(0, StartOffset(durations, timerPosition)));
    Settle(durations, Position(0, StartOffset(durations, timerPosition)))
  }

  /** The purpose of the start offset: a copy of an image that has played k ticks and a copy
      created then show the same instant, exactly when the cap makes them lag alike; for
      animations of at most a minute it always does. */
  lemma CopiesInStepExactlyWhen(durations: seq<int>, timerPosition: nat, k: nat)
    requires Positive(durations) && durations != []
    ensures Total(durations) > 0
    ensures var later := timerPosition + k * GIF_FRAME_LENGTH;
      && (SamePhase(Elapsed(durations, AdvanceMany(durations, Created(durations, timerPosition), k)),
                    Elapsed(durations, Created(durations, later)), Total(durations))
          <==> Lag(durations, timerPosition) == Lag(durations, later))
      && (Total(durations) <= 60000 ==> Lag(durations, timerPosition) == 0 == Lag(durations, later))
  {
    var total := Total(durations);
    StartsGrow(durations, 0, |durations|);
    var later := timerPosition + k * GIF_FRAME_LENGTH;
    var lag, lag' := Lag(durations, timerPosition), Lag(durations, later);
    CreatedPhase(durations, timerPosition);
    CreatedPhase(durations, later);
    var p, p' := Created(durations, timerPosition), Created(durations, later);
    var e, e' := Elapsed(durations, AdvanceMany(durations, p, k)), Elapsed(durations, p');
    PlaybackNeverDrifts(durations, p, k);
    SamePhaseShift(Elapsed(durations, p), timerPosition - lag, k * GIF_FRAME_LENGTH, total);
    SamePhaseTransitive(e, Elapsed(durations, p) + k * GIF_FRAME_LENGTH, later - lag, total);
    SamePhaseShift(e', later - lag', 0, total);
    StartPhase(durations, timerPosition);
    StartPhase(durations, later);
    if lag == lag' {
      SamePhaseTransitive(e, later - lag, e', total);
    }
    if SamePhase(e, e', total) {
      SamePhaseShift(e, later - lag, 0, total);
      SamePhaseTransitive(later - lag, e, e', total);
      SamePhaseTransitive(later - lag, e', later - lag', total);
      SamePhaseClose(later - lag, later - lag', total);
    }
  }

  lemma CreatedPhase(durations: seq<int>, timerPosition: nat)
    requires Positive(durations) && durations != [] && Total(durations) > 0
    ensures SamePhase(Elapsed(durations, Created(durations, timerPosition)),
        timerPosition - Lag(durations, timerPosition), Total(durations))
  {
    var start := Position(0, StartOffset(durations, timerPosition));
    StartOffsetOk(durations, timerPosition);
    SettleKeepsPhase(durations, start);
    StartPhase(durations, timerPosition);
    SamePhaseTransitive(Elapsed(durations, Created(durations, timerPosition)), Elapsed(durations, start),
      timerPosition - Lag(durations, timerPosition), Total(durations));
  }
}

module FramesModel {
  import opened FrameSpec

  class Frames {
    const durations: seq<int>
    var index: nat
    var durationOffset: int

    ghost predicate Valid()
      reads this
    {
      Positive(durations) && (durations != [] ==> PositionOk(durations, Position(index, durationOffset)))
    }

    constructor (durations: seq<int>, timerPosition: nat)
      requires Positive(durations)
      ensures Valid() && this.durations == durations
      ensures durations != [] ==> Position(index, durationOffset) == Created(durations, timerPosition)
    {
      this.durations := durations;
      index, durationOffset := 0, 0;
      new;
      var totalLength := 0;
      for i := 0 to |durations|
        invariant totalLength == StartOf(durations, i)
        invariant index == 0 && durationOffset == 0
      {
        totalLength := totalLength + durations[i];
      }
      if totalLength != 0 {
        var position := timerPosition % totalLength;
        durationOffset := if position < 60000 then position else 60000;
      }
      StartOffsetOk(durations, timerPosition);
      ProcessOffset();
      if durations != [] {
        NextIsModulo(0, |durations|);
        SettleKeepsPhase(durations, Position(0, StartOffset(durations, timerPosition)));
      }
    }

    method ProcessOffset()
      requires Positive(durations)
      modifies this
      ensures durations == [] ==> index == old(index) && durationOffset == old(durationOffset)
      ensures durations != [] ==>
        Position(index, durationOffset) == Settle(durations, Position(old(index) % |durations|, old(durationOffset)))
    {
      if durations == [] { return; }
      index := index % |durations|;
      while durationOffset > durations[index]
        invariant index < |durations|
        invariant Settle(durations, Position(index, durationOffset))
               == Settle(durations, Position(old(index) % |durations|, old(durationOffset)))
        decreases durationOffset
      {
        NextIsModulo(index, |durations|);
        durationOffset := durationOffset - durations[index];
        index := (index + 1) % |durations|;
      }
    }

    method Advance()
      requires Valid()
      modifies this
      ensures Valid()
      ensures durations != [] ==>
        Position(index, durationOffset) == FrameSpec.Advance(durations, Position(old(index), old(durationOffset)))
    {
      durationOffset := durationOffset + GIF_FRAME_LENGTH;
      ghost var start := Position(index, durationOffset);
      ProcessOffset();
      if durations != [] {
        NextIsModulo(start.index, |durations|);
        SettleKeepsPhase(durations, start);
      }
    }
  }
}
