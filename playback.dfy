/** The single repeating timer the editor shares between storyboard playback and the shift
    animation, and what one of its ticks does to the grid. The timer handle becomes a mode:
    idle, playing the storyboard from a current frame index, or animating. */
module Playback {

  import opened Grid

  /** What the shared timer is driving. The frame index is the playback callback's own counter. */
  datatype Mode = Idle | PlayingStoryboard(idx: nat) | Animating

  /** Everything a tick reads or writes: the grid, the saved frames and the timer's mode. */
  datatype Session = Session(grid: seq<bool>, storyboard: seq<string>, mode: Mode)

  predicate AllFrames(storyboard: seq<string>) {
    forall i :: 0 <= i < |storyboard| ==> IsFrame(storyboard[i])
  }

  predicate Wellformed(s: Session) {
    IsGrid(s.grid) && AllFrames(s.storyboard)
  }

  /** While playing, the frame index names a saved frame. */
  predicate IndexInRange(s: Session) {
    s.mode.PlayingStoryboard? ==> s.mode.idx < |s.storyboard|
  }

  /** One firing of the timer. Animating shifts every row left with wrap-around. Playing loads
      frame idx and advances idx modulo the frame count; when idx is past the end (the storyboard
      was cleared or shortened while playing) loading the missing frame fails before anything
      changes, so the tick leaves the session as it was. */
  function Tick(s: Session): (t: Session)
    requires Wellformed(s)
    ensures Wellformed(t) && t.storyboard == s.storyboard
    ensures t.mode.Idle? == s.mode.Idle? && t.mode.Animating? == s.mode.Animating?
    ensures IndexInRange(s) ==> IndexInRange(t)
  {
    match s.mode
    case Idle => s
    case Animating => s.(grid := ShiftedLeft(s.grid, true))
    case PlayingStoryboard(idx) =>
      if idx < |s.storyboard| then
        Session(ParseState(s.storyboard[idx]), s.storyboard, PlayingStoryboard((idx + 1) % |s.storyboard|))
      else
        s
  }

  /** The session after k ticks. */
  function Ticks(s: Session, k: nat): (t: Session)
    requires Wellformed(s)
    ensures Wellformed(t) && t.storyboard == s.storyboard
  {
    if k == 0 then s else Tick(Ticks(s, k - 1))
  }

  lemma MulAtLeast(d: int, n: int)
    requires d >= 1 && n > 0
    ensures d * n >= n
  {
  }

  /** The remainder is determined by any quotient-remainder decomposition. */
  lemma ModUnique(x: int, n: int, q: int, r: int)
    requires n > 0 && x == q * n + r && 0 <= r < n
    ensures x % n == r
  {
    var d := q - x / n;
    assert d * n == x % n - r;
    if d >= 1 {
      MulAtLeast(d, n);
    } else if d <= -1 {
      MulAtLeast(-d, n);
    }
  }

  lemma ModNext(a: nat, n: nat)
    requires n > 0
    ensures (a % n + 1) % n == (a + 1) % n
  {
    var q, r := a / n, a % n;
    if r + 1 < n {
      ModUnique(a + 1, n, q, r + 1);
      ModUnique(r + 1, n, 0, r + 1);
    } else {
      ModUnique(a + 1, n, q + 1, 0);
      ModUnique(r + 1, n, 1, 0);
    }
  }

  /** Playback started at frame 0 with frames f_0 .. f_(n-1) shows f_0, f_1, ..., f_(n-1), f_0, ...:
      after k + 1 ticks the grid's state string is frame k mod n and the next index is
      (k + 1) mod n. */
  lemma {:induction false} PlaybackCycle(s: Session, k: nat)
    requires Wellformed(s) && s.mode == PlayingStoryboard(0) && |s.storyboard| > 0
    ensures StateString(Ticks(s, k + 1).grid) == s.storyboard[k % |s.storyboard|]
    ensures Ticks(s, k + 1).mode == PlayingStoryboard((k + 1) % |s.storyboard|)
  {
    var n := |s.storyboard|;
    if k == 0 {
      ModUnique(1, n, if n == 1 then 1 else 0, if n == 1 then 0 else 1);
      ModUnique(0, n, 0, 0);
    } else {
      PlaybackCycle(s, k - 1);
      ModNext(k, n);
    }
    ParseThenState(s.storyboard[k % n]);
  }

  /** Animating for k ticks rotates every row left k places. */
  lemma {:induction false} AnimationRotates(s: Session, k: nat)
    requires Wellformed(s) && s.mode == Animating
    ensures Ticks(s, k).grid == LeftRotations(s.grid, k)
    ensures Ticks(s, k).mode == Animating
  {
    if k > 0 {
      AnimationRotates(s, k - 1);
    }
  }

  /** Thirteen animation ticks bring the grid back to where it started. */
  lemma AnimationPeriod(s: Session)
    requires Wellformed(s) && s.mode == Animating
    ensures Ticks(s, COLS).grid == s.grid
  {
    AnimationRotates(s, COLS);
    FullRotation(s.grid);
  }

  /** With the timer stopped, time passing changes nothing. */
  lemma {:induction false} IdleIsStill(s: Session, k: nat)
    requires Wellformed(s) && s.mode == Idle
    ensures Ticks(s, k) == s
  {
    if k > 0 {
      IdleIsStill(s, k - 1);
    }
  }
}
