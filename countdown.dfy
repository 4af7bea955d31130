/**
 * The `Timer` of term-timer: the retry loop of `getTimeInput` and the
 * frame loop of `displayTimer`. The loop keeps three flags, `endtimer`,
 * `flashBackground` and the member `shouldExit`; every frame reads the
 * clock once and, after the countdown has finished, polls the keyboard once.
 * Clock readings, key polls and the screen size of each frame are given as a
 * finite sequence of observations; terminal output is collected as frames.
 */
module Countdown {
  import opened Decimal
  import opened Duration
  import opened Screen

  /** What the loop observes on one pass: the whole seconds since the start, whether a key is waiting, `LINES`/`COLS`. */
  datatype Observation = Observation(elapsed: int, keyPending: bool, screen: ScreenSize)

  /** What one pass reads: the text `getRemainingTime` returned, the key poll and the screen size. */
  datatype Pass = Pass(timeRemaining: string, keyPending: bool, screen: ScreenSize)

  /** The loop's flags after a pass. */
  datatype Flags = Flags(endtimer: bool, flashBackground: bool, shouldExit: bool)

  /** One drawn screen: whether reverse video was switched on for it, and the texts placed on it. */
  datatype Frame = Frame(reverse: bool, texts: seq<Placement>)

  /** The flags at the end of a run and the frames drawn on the way. */
  datatype Trace = Trace(flags: Flags, frames: seq<Frame>)

  const Title: string := "Timer"
  const Acknowledge: string := "Countdown finished. Press any key to exit."

  /** No time is left at this observation. */
  predicate Finished(length: int, o: Observation) {
    length - o.elapsed <= 0
  }

  /** The pass made at observation `o` of a countdown of `length` seconds. */
  function ReadPass(length: int, o: Observation): Pass {
    Pass(RemainingTime(length, o.elapsed), o.keyPending, o.screen)
  }

  /** The passes made at each observation in turn. */
  function ReadAll(length: int, obs: seq<Observation>): (ps: seq<Pass>)
    ensures |ps| == |obs|
    decreases |obs|
  {
    if |obs| == 0 then [] else [ReadPass(length, obs[0])] + ReadAll(length, obs[1..])
  }

  /** Pass `i` is read at observation `i`. */
  lemma {:induction false} ReadAllAt(length: int, obs: seq<Observation>, i: int)
    requires 0 <= i < |obs|
    ensures ReadAll(length, obs)[i] == ReadPass(length, obs[i])
    decreases i
  {
    if i > 0 {
      ReadAllAt(length, obs[1..], i - 1);
    }
  }

  /** The frame drawn on pass `p` with the flags `f` held before it. */
  function Render(f: Flags, p: Pass): Frame {
    TimerFrame(p.timeRemaining == Sentinel && f.flashBackground, p.timeRemaining, p.screen)
  }

  /** The flags after pass `p`. */
  function Next(f: Flags, p: Pass): Flags {
    var finished := p.timeRemaining == Sentinel;
    var flash := if finished then !f.flashBackground else f.flashBackground;
    var endtimer := if finished then true else f.endtimer;
    var exit := if endtimer && p.keyPending then true else f.shouldExit;
    Flags(endtimer, flash, exit)
  }

  /**
   * `while (!shouldExit)` over the passes: one frame per pass, until
   * `shouldExit` holds or the passes run out.
   */
  function Run(f: Flags, ps: seq<Pass>): (t: Trace)
    ensures |t.frames| <= |ps|
    ensures !t.flags.shouldExit ==> |t.frames| == |ps|
    ensures f.shouldExit ==> t == Trace(f, [])
    decreases |ps|
  {
    if f.shouldExit || |ps| == 0 then Trace(f, [])
    else
      var rest := Run(Next(f, ps[0]), ps[1..]);
      Trace(rest.flags, [Render(f, ps[0])] + rest.frames)
  }

  lemma RunUnfold(f: Flags, ps: seq<Pass>)
    requires !f.shouldExit && |ps| > 0
    ensures var rest := Run(Next(f, ps[0]), ps[1..]);
      Run(f, ps) == Trace(rest.flags, [Render(f, ps[0])] + rest.frames)
  {
  }

  /**
   * The loop as it runs: from pass `i` on, with the flags `f` and the
   * frames `drawn` so far.
   */
  function Loop(f: Flags, drawn: seq<Frame>, ps: seq<Pass>, i: nat): Trace
    requires i <= |ps|
    decreases |ps| - i
  {
    if f.shouldExit || i == |ps| then Trace(f, drawn)
    else Loop(Next(f, ps[i]), drawn + [Render(f, ps[i])], ps, i + 1)
  }

  /** Running the loop from pass `i` appends the frames of the run over the remaining passes. */
  lemma {:induction false} LoopRun(f: Flags, drawn: seq<Frame>, ps: seq<Pass>, i: nat)
    requires i <= |ps|
    ensures var rest := Run(f, ps[i..]);
      Loop(f, drawn, ps, i) == Trace(rest.flags, drawn + rest.frames)
    decreases |ps| - i
  {
    if !f.shouldExit && i < |ps| {
      LoopRun(Next(f, ps[i]), drawn + [Render(f, ps[i])], ps, i + 1);
      assert ps[i..][1..] == ps[i + 1..];
      RunUnfold(f, ps[i..]);
    }
  }

  /** The closing frame, drawn after the loop when the countdown had finished. */
  function AckFrame(screen: ScreenSize): Frame {
    Frame(false, [CenterText(Acknowledge, screen, "other")])
  }

  /**
   * All of `displayTimer`: the loop from fresh flags, then, once the loop
   * has ended with `endtimer` set, the closing frame (after which a blocking
   * key read ends the method).
   */
  function Display(length: int, shouldExit: bool, obs: seq<Observation>, ackScreen: ScreenSize): Trace {
    var t := Run(Flags(false, false, shouldExit), ReadAll(length, obs));
    if t.flags.shouldExit && t.flags.endtimer then
      Trace(t.flags, t.frames + [AckFrame(ackScreen)])
    else
      t
  }

  /** What the loop has drawn and the flags it ended with decide the whole of `displayTimer`. */
  lemma DisplayAfterLoop(length: int, shouldExit: bool, obs: seq<Observation>, ackScreen: ScreenSize, t: Trace)
    requires Run(Flags(false, false, shouldExit), ReadAll(length, obs)) == t
    ensures Display(length, shouldExit, obs, ackScreen) ==
      if t.flags.shouldExit && t.flags.endtimer then Trace(t.flags, t.frames + [AckFrame(ackScreen)]) else t
  {
  }

  /** The value of the first line `getTimeInput` accepts. */
  function FirstAccepted(inputs: seq<string>): Option<nat>
    decreases |inputs|
  {
    if |inputs| == 0 then None
    else if ParseDuration(inputs[0]).Some? then ParseDuration(inputs[0])
    else FirstAccepted(inputs[1..])
  }

  // ---------------------------------------------------------------------
  // One pass of the loop

  /** `flashBackground` changes on a pass exactly when that pass finds no time left. */
  lemma FlashTogglesOnlyWhenFinished(length: int, f: Flags, o: Observation)
    ensures Next(f, ReadPass(length, o)).flashBackground != f.flashBackground <==> Finished(length, o)
  {
    FinishedIff(length, o.elapsed);
  }

  /** `endtimer` is set by the first pass that finds no time left, and stays set. */
  lemma EndtimerSticky(length: int, f: Flags, o: Observation)
    ensures Next(f, ReadPass(length, o)).endtimer <==> f.endtimer || Finished(length, o)
  {
    FinishedIff(length, o.elapsed);
  }

  /** A pass sets `shouldExit` exactly when `endtimer` holds after it and a key is waiting. */
  lemma ExitOnlyOnKeyAfterFinish(length: int, f: Flags, o: Observation)
    ensures Next(f, ReadPass(length, o)).shouldExit <==>
      f.shouldExit || ((f.endtimer || Finished(length, o)) && o.keyPending)
  {
    FinishedIff(length, o.elapsed);
  }

  /** Reverse video is switched on only for a finished frame drawn while the flash flag is set. */
  lemma ReverseOnlyWhenFinished(length: int, f: Flags, o: Observation)
    ensures Render(f, ReadPass(length, o)).reverse <==> Finished(length, o) && f.flashBackground
  {
    FinishedIff(length, o.elapsed);
  }

  // ---------------------------------------------------------------------
  // Whole runs

  /** The pass at index `i` would end the loop: a key is waiting and the sentinel has been read by then. */
  ghost predicate ExitsAt(f: Flags, ps: seq<Pass>, i: int)
    requires 0 <= i < |ps|
  {
    ps[i].keyPending && (f.endtimer || exists j | 0 <= j <= i :: ps[j].timeRemaining == Sentinel)
  }

  lemma ExitsAtShift(f: Flags, ps: seq<Pass>, i: int)
    requires 1 <= i < |ps|
    ensures ExitsAt(f, ps, i) <==> ExitsAt(Next(f, ps[0]), ps[1..], i - 1)
  {
    var g := Next(f, ps[0]);
    if ExitsAt(f, ps, i) && !g.endtimer {
      var j :| 0 <= j <= i && ps[j].timeRemaining == Sentinel;
      assert ps[1..][j - 1] == ps[j];
    }
    if ExitsAt(g, ps[1..], i - 1) && !g.endtimer {
      var j :| 0 <= j <= i - 1 && ps[1..][j].timeRemaining == Sentinel;
      assert ps[j + 1] == ps[1..][j];
    }
  }

  /**
   * The loop ends on the FIRST pass that finds a key waiting once the
   * sentinel has been read: of the frames drawn, only the last can be such
   * a pass, and it is one exactly when the loop has ended.
   */
  lemma {:induction false} RunStopsAtFirstExit(f: Flags, ps: seq<Pass>)
    requires !f.shouldExit
    ensures var t := Run(f, ps);
      forall i | 0 <= i < |t.frames| :: ExitsAt(f, ps, i) <==> t.flags.shouldExit && i == |t.frames| - 1
    decreases |ps|
  {
    if |ps| > 0 {
      var g := Next(f, ps[0]);
      var t := Run(f, ps);
      RunUnfold(f, ps);
      assert ExitsAt(f, ps, 0) <==> g.shouldExit;
      if !g.shouldExit {
        RunStopsAtFirstExit(g, ps[1..]);
        forall i | 1 <= i < |t.frames| ensures ExitsAt(f, ps, i) <==> ExitsAt(g, ps[1..], i - 1) {
          ExitsAtShift(f, ps, i);
        }
      }
    }
  }

  /** The loop ends at all exactly when some pass finds a key waiting once the sentinel has been read. */
  lemma RunExitsIff(f: Flags, ps: seq<Pass>)
    requires !f.shouldExit
    ensures Run(f, ps).flags.shouldExit <==> exists i | 0 <= i < |ps| :: ExitsAt(f, ps, i)
  {
    var t := Run(f, ps);
    RunStopsAtFirstExit(f, ps);
    if t.flags.shouldExit {
      assert |t.frames| > 0;
      assert ExitsAt(f, ps, |t.frames| - 1);
    }
  }

  /** On observations: a pass ends the loop when a key is waiting and some observation up to it found no time left. */
  lemma ExitsAtObserved(length: int, f: Flags, obs: seq<Observation>, i: int)
    requires 0 <= i < |obs|
    ensures ExitsAt(f, ReadAll(length, obs), i) <==>
      obs[i].keyPending && (f.endtimer || exists j | 0 <= j <= i :: Finished(length, obs[j]))
  {
    var ps := ReadAll(length, obs);
    ReadAllAt(length, obs, i);
    forall j | 0 <= j <= i ensures ps[j].timeRemaining == Sentinel <==> Finished(length, obs[j]) {
      ReadAllAt(length, obs, j);
      FinishedIff(length, obs[j].elapsed);
    }
  }

  /** Once the loop has ended, the sentinel had been read: `endtimer` holds. */
  lemma {:induction false} ExitImpliesFinished(f: Flags, ps: seq<Pass>)
    requires !f.shouldExit
    ensures Run(f, ps).flags.shouldExit ==> Run(f, ps).flags.endtimer
    decreases |ps|
  {
    if |ps| > 0 {
      var g := Next(f, ps[0]);
      if !g.shouldExit {
        ExitImpliesFinished(g, ps[1..]);
      }
    }
  }

  /**
   * `displayTimer` from a fresh timer: the flags are those the loop ends
   * with, and the closing frame follows the loop's frames exactly when some
   * observation finds a key waiting once some observation up to it has
   * found no time left; otherwise the loop's frames are all there is.
   */
  lemma ClosingFrameIff(length: int, obs: seq<Observation>, ack: ScreenSize)
    ensures var t := Run(Flags(false, false, false), ReadAll(length, obs));
      var d := Display(length, false, obs, ack);
      && d.flags == t.flags
      && (d.frames == t.frames + [AckFrame(ack)] <==>
            exists i | 0 <= i < |obs| :: obs[i].keyPending && exists j | 0 <= j <= i :: Finished(length, obs[j]))
      && (d.frames == t.frames <==>
            !exists i | 0 <= i < |obs| :: obs[i].keyPending && exists j | 0 <= j <= i :: Finished(length, obs[j]))
  {
    var f := Flags(false, false, false);
    var ps := ReadAll(length, obs);
    var t := Run(f, ps);
    RunExitsIff(f, ps);
    ExitImpliesFinished(f, ps);
    forall i | 0 <= i < |obs|
      ensures ExitsAt(f, ps, i) <==>
        obs[i].keyPending && exists j | 0 <= j <= i :: Finished(length, obs[j])
    {
      ExitsAtObserved(length, f, obs, i);
    }
    assert |t.frames + [AckFrame(ack)]| != |t.frames|;
  }

  /** Elapsed seconds that never go backwards, as a monotonic clock gives them. */
  ghost predicate NonDecreasing(obs: seq<Observation>) {
    forall i, j | 0 <= i <= j < |obs| :: obs[i].elapsed <= obs[j].elapsed
  }

  /**
   * With a monotonic clock, `endtimer` after a run says whether the last
   * frame drawn found no time left (or it was set already).
   */
  lemma {:induction false} EndtimerTracksClock(length: int, f: Flags, obs: seq<Observation>)
    requires NonDecreasing(obs)
    ensures var t := Run(f, ReadAll(length, obs));
      t.flags.endtimer == (f.endtimer || (|t.frames| > 0 && Finished(length, obs[|t.frames| - 1])))
    decreases |obs|
  {
    if !f.shouldExit && |obs| > 0 {
      var ps := ReadAll(length, obs);
      assert ps[1..] == ReadAll(length, obs[1..]);
      var g := Next(f, ps[0]);
      EndtimerSticky(length, f, obs[0]);
      assert NonDecreasing(obs[1..]) by {
        forall i, j | 0 <= i <= j < |obs[1..]| ensures obs[1..][i].elapsed <= obs[1..][j].elapsed {
          assert obs[1..][i] == obs[i + 1] && obs[1..][j] == obs[j + 1];
        }
      }
      EndtimerTracksClock(length, g, obs[1..]);
      var n := |Run(g, ps[1..]).frames|;
      if n > 0 {
        assert obs[1..][n - 1] == obs[n];
        assert obs[0].elapsed <= obs[n].elapsed;
      }
    }
  }

  /** How many of the passes read the sentinel. */
  function CountFinished(ps: seq<Pass>): (n: nat)
    ensures n <= |ps|
    decreases |ps|
  {
    if |ps| == 0 then 0
    else (if ps[0].timeRemaining == Sentinel then 1 else 0) + CountFinished(ps[1..])
  }

  /** The flags held before pass `k`: the first `k` passes applied in turn. */
  function FlagsBefore(f: Flags, ps: seq<Pass>, k: nat): Flags
    requires k <= |ps|
    decreases k
  {
    if k == 0 then f else FlagsBefore(Next(f, ps[0]), ps[1..], k - 1)
  }

  /** Frame `k` of a run is the pass `k` rendered with the flags held before it. */
  lemma {:induction false} RunFrameAt(f: Flags, ps: seq<Pass>, k: nat)
    requires k < |Run(f, ps).frames|
    ensures Run(f, ps).frames[k] == Render(FlagsBefore(f, ps, k), ps[k])
    decreases k
  {
    RunUnfold(f, ps);
    if k > 0 {
      RunFrameAt(Next(f, ps[0]), ps[1..], k - 1);
      assert ps[1..][k - 1] == ps[k];
    }
  }

  /** The flash flag before pass `k` is the starting one flipped once per earlier sentinel. */
  lemma {:induction false} FlashBefore(f: Flags, ps: seq<Pass>, k: nat)
    requires k <= |ps|
    ensures FlagsBefore(f, ps, k).flashBackground == (f.flashBackground != (CountFinished(ps[..k]) % 2 == 1))
    decreases k
  {
    if k == 0 {
      assert ps[..0] == [];
    } else {
      FlashBefore(Next(f, ps[0]), ps[1..], k - 1);
      assert ps[..k][1..] == ps[1..][..k - 1];
    }
  }

  /**
   * Every frame of a run shows the text read on its pass in the middle row
   * and the title on the top row, and is in reverse video exactly when it
   * reads the sentinel and the flash flag, flipped once per earlier
   * sentinel, is set: the flashing alternates.
   */
  lemma RunFrames(f: Flags, ps: seq<Pass>, k: nat)
    requires k < |Run(f, ps).frames|
    ensures var frame := Run(f, ps).frames[k];
      && frame.texts == [CenterText(ps[k].timeRemaining, ps[k].screen, "other"),
                         CenterText(Title, ps[k].screen, "top")]
      && (frame.reverse <==>
            ps[k].timeRemaining == Sentinel && (f.flashBackground != (CountFinished(ps[..k]) % 2 == 1)))
  {
    RunFrameAt(f, ps, k);
    FlashBefore(f, ps, k);
  }

  /** A run ends with the flags held after its last frame. */
  lemma {:induction false} RunFlags(f: Flags, ps: seq<Pass>)
    ensures Run(f, ps).flags == FlagsBefore(f, ps, |Run(f, ps).frames|)
    decreases |ps|
  {
    if !f.shouldExit && |ps| > 0 {
      RunUnfold(f, ps);
      RunFlags(Next(f, ps[0]), ps[1..]);
    }
  }

  /**
   * The flash flag after a run is its starting value flipped once per
   * frame that read the sentinel.
   */
  lemma FlashParity(f: Flags, ps: seq<Pass>)
    ensures var t := Run(f, ps);
      t.flags.flashBackground == (f.flashBackground != (CountFinished(ps[..|t.frames|]) % 2 == 1))
  {
    RunFlags(f, ps);
    FlashBefore(f, ps, |Run(f, ps).frames|);
  }

  /**
   * Reverse video as the terminal applies it: `attron(A_REVERSE)` stays in
   * effect until `attroff`, which the loop calls only on its way out. As
   * written, a frame is therefore drawn in reverse video once any frame so
   * far has switched it on (`on`: whether it was on before the first).
   */
  function ReverseInEffect(on: bool, frames: seq<Frame>): (r: seq<bool>)
    ensures |r| == |frames|
    decreases |frames|
  {
    if |frames| == 0 then []
    else
      var now := on || frames[0].reverse;
      [now] + ReverseInEffect(now, frames[1..])
  }

  lemma {:induction false} ReverseOnStays(frames: seq<Frame>, k: nat)
    requires k < |frames|
    ensures ReverseInEffect(true, frames)[k]
    decreases k
  {
    if k > 0 {
      ReverseOnStays(frames[1..], k - 1);
    }
  }

  /**
   * As written, frame `k` is drawn in reverse video exactly when reverse
   * video was already on or some frame up to `k` switched it on.
   */
  lemma {:induction false} ReverseInEffectIff(on: bool, frames: seq<Frame>, k: nat)
    requires k < |frames|
    ensures ReverseInEffect(on, frames)[k] <==> on || exists j | 0 <= j <= k :: frames[j].reverse
    decreases k
  {
    var now := on || frames[0].reverse;
    if k > 0 {
      ReverseInEffectIff(now, frames[1..], k - 1);
      if exists j | 0 <= j <= k :: frames[j].reverse {
        var j :| 0 <= j <= k && frames[j].reverse;
        if j > 0 {
          assert frames[1..][j - 1].reverse;
        }
      }
      if exists j | 0 <= j <= k - 1 :: frames[1..][j].reverse {
        var j :| 0 <= j <= k - 1 && frames[1..][j].reverse;
        assert frames[j + 1].reverse;
      }
    }
  }

  /** As written, reverse video, once on, stays on for every later frame. */
  lemma {:induction false} ReverseStaysOn(on: bool, frames: seq<Frame>, j: nat, k: nat)
    requires j <= k < |frames|
    requires ReverseInEffect(on, frames)[j]
    ensures ReverseInEffect(on, frames)[k]
    decreases j
  {
    var now := on || frames[0].reverse;
    if j > 0 {
      ReverseStaysOn(now, frames[1..], j - 1, k - 1);
    } else if k > 0 {
      ReverseOnStays(frames[1..], k - 1);
    }
  }

  /**
   * Three finished passes without a key: the flash flag asks for plain,
   * reverse, plain, but as written the third frame is still in reverse
   * video, so the background never flashes back.
   */
  lemma StuckReverse(s: ScreenSize)
    ensures var frames := Run(Flags(false, false, false),
                              [Pass(Sentinel, false, s), Pass(Sentinel, false, s), Pass(Sentinel, false, s)]).frames;
      |frames| == 3 && !frames[0].reverse && frames[1].reverse && !frames[2].reverse
      && ReverseInEffect(false, frames) == [false, true, true]
  {
    var ps := [Pass(Sentinel, false, s), Pass(Sentinel, false, s), Pass(Sentinel, false, s)];
    var f0 := Flags(false, false, false);
    var f1 := Flags(true, true, false);
    var f2 := Flags(true, false, false);
    assert Next(f0, ps[0]) == f1 && Next(f1, ps[1]) == f2 && Next(f2, ps[2]) == f1;
    assert ps[1..][1..] == ps[2..];
    RunUnfold(f2, ps[2..]);
    RunUnfold(f1, ps[1..]);
    RunUnfold(f0, ps);
    var frames := Run(f0, ps).frames;
    assert frames == [Render(f0, ps[0]), Render(f1, ps[1]), Render(f2, ps[2])];
    assert frames[1..][1..] == [frames[2]];
    assert ReverseInEffect(true, [frames[2]]) == [true];
    assert ReverseInEffect(true, frames[1..]) == [true, true];
  }

  /** The observations of the two-second scenario: one per second, a key waiting from 3 s on. */
  function TwoSecondObservations(s: ScreenSize): seq<Observation> {
    [Observation(0, false, s), Observation(1, false, s), Observation(2, false, s),
     Observation(3, true, s), Observation(4, true, s)]
  }

  lemma TwoSecondPasses(s: ScreenSize)
    ensures ReadAll(2, TwoSecondObservations(s)) ==
      [Pass("00:00:02", false, s), Pass("00:00:01", false, s), Pass(Sentinel, false, s),
       Pass(Sentinel, true, s), Pass(Sentinel, true, s)]
  {
    var obs := TwoSecondObservations(s);
    RemainingTimeUnderTen(2, 0);
    RemainingTimeUnderTen(2, 1);
    FinishedIff(2, 2);
    FinishedIff(2, 3);
    FinishedIff(2, 4);
    ReadAllAt(2, obs, 0);
    ReadAllAt(2, obs, 1);
    ReadAllAt(2, obs, 2);
    ReadAllAt(2, obs, 3);
    ReadAllAt(2, obs, 4);
    assert "00:00:0" + [DigitChar(2)] == "00:00:02";
    assert "00:00:0" + [DigitChar(1)] == "00:00:01";
    assert ReadPass(2, obs[0]) == Pass("00:00:02", false, s);
    assert ReadPass(2, obs[1]) == Pass("00:00:01", false, s);
    assert ReadPass(2, obs[2]) == Pass(Sentinel, false, s);
    assert ReadPass(2, obs[3]) == Pass(Sentinel, true, s);
    assert ReadPass(2, obs[4]) == Pass(Sentinel, true, s);
  }

  /** The frame of a pass showing `text`, with reverse video as given. */
  function TimerFrame(reverse: bool, text: string, s: ScreenSize): Frame {
    Frame(reverse, [CenterText(text, s, "other"), CenterText(Title, s, "top")])
  }

  /**
   * The loop over the two-second passes: 00:00:02, 00:00:01, then the
   * sentinel twice, plain and then in reverse video; the key waiting at the
   * fourth pass ends the loop.
   */
  lemma TwoSecondRun(s: ScreenSize)
    ensures Run(Flags(false, false, false),
                [Pass("00:00:02", false, s), Pass("00:00:01", false, s), Pass(Sentinel, false, s),
                 Pass(Sentinel, true, s), Pass(Sentinel, true, s)])
      == Trace(Flags(true, false, true),
               [TimerFrame(false, "00:00:02", s), TimerFrame(false, "00:00:01", s),
                TimerFrame(false, Sentinel, s), TimerFrame(true, Sentinel, s)])
  {
    var ps := [Pass("00:00:02", false, s), Pass("00:00:01", false, s), Pass(Sentinel, false, s),
               Pass(Sentinel, true, s), Pass(Sentinel, true, s)];
    var f0 := Flags(false, false, false);
    var f3 := Flags(true, true, false);
    var f4 := Flags(true, false, true);
    assert Next(f0, ps[0]) == f0 && Next(f0, ps[1]) == f0;
    assert Next(f0, ps[2]) == f3 && Next(f3, ps[3]) == f4;
    assert ps[1..][1..] == ps[2..] && ps[2..][1..] == ps[3..] && ps[3..][1..] == ps[4..];
    assert Run(f4, ps[4..]) == Trace(f4, []);
    RunUnfold(f3, ps[3..]);
    RunUnfold(f0, ps[2..]);
    RunUnfold(f0, ps[1..]);
    RunUnfold(f0, ps);
  }

  /** "00:00:02" is read as two seconds. */
  lemma TwoSecondInput()
    ensures ParseDuration("00:00:02") == Some(2)
  {
    ParseFieldValues("00", "00", "02", 0, 0, 2) by {
      ValueLeadingZeros(1, "0");
      ValueLeadingZeros(1, "2");
    }
    assert "00:00:02" == Join3("00", "00", "02");
  }

  /**
   * The two-second countdown: four timer frames (the last one in reverse
   * video), then the closing frame once the waiting key has ended the loop.
   */
  lemma TwoSecondCountdown(s: ScreenSize, ack: ScreenSize)
    ensures Display(2, false, TwoSecondObservations(s), ack)
      == Trace(Flags(true, false, true),
               [TimerFrame(false, "00:00:02", s), TimerFrame(false, "00:00:01", s),
                TimerFrame(false, Sentinel, s), TimerFrame(true, Sentinel, s), AckFrame(ack)])
  {
    TwoSecondPasses(s);
    TwoSecondRun(s);
    DisplayAfterLoop(2, false, TwoSecondObservations(s), ack,
                     Run(Flags(false, false, false), ReadAll(2, TwoSecondObservations(s))));
  }

  // ---------------------------------------------------------------------
  // The timer object

  class Timer {
    var countdownLength: int
    var shouldExit: bool

    /** `countdownLength` is left uninitialised by the source; 0 stands for any value here. */
    constructor ()
      ensures !shouldExit && countdownLength == 0
    {
      countdownLength := 0;
      shouldExit := false;
    }

    /**
     * `getTimeInput`: prompt, read a line, retry on "Invalid input". Each
     * element of `inputs` is one line typed in. Returns the value of the
     * first accepted line and how many lines were read.
     */
    method GetTimeInput(inputs: seq<string>, screen: ScreenSize)
      returns (seconds: Option<nat>, attempts: nat, messages: seq<Placement>)
      ensures seconds == FirstAccepted(inputs)
      ensures attempts <= |inputs|
      ensures seconds.Some? ==> 1 <= attempts && ParseDuration(inputs[attempts - 1]) == seconds
      ensures seconds.None? ==> attempts == |inputs|
      ensures forall k | 0 <= k < attempts && (seconds.None? || k < attempts - 1) :: ParseDuration(inputs[k]).None?
      ensures |messages| == (if seconds.Some? then attempts - 1 else attempts)
      ensures forall k | 0 <= k < |messages| :: messages[k] == InvalidInput(screen)
    {
      var i := 0;
      messages := [];
      while i < |inputs|
        invariant 0 <= i <= |inputs|
        invariant forall k | 0 <= k < i :: ParseDuration(inputs[k]).None?
        invariant FirstAccepted(inputs) == FirstAccepted(inputs[i..])
        invariant |messages| == i
        invariant forall k | 0 <= k < i :: messages[k] == InvalidInput(screen)
      {
        var parsed := ParseDuration(inputs[i]);
        if parsed.Some? {
          return parsed, i + 1, messages;
        }
        messages := messages + [InvalidInput(screen)];
        assert inputs[i..][1..] == inputs[i + 1..];
        i := i + 1;
      }
      return None, |inputs|, messages;
    }

    /**
     * `displayTimer`: the frame loop over `obs`, then the closing frame,
     * drawn on the screen size `ackScreen`. When the observations run out
     * before the loop ends, the frames so far are returned.
     */
    method DisplayTimer(obs: seq<Observation>, ackScreen: ScreenSize) returns (frames: seq<Frame>)
      modifies this`shouldExit
      ensures var d := Display(countdownLength, old(shouldExit), obs, ackScreen);
        frames == d.frames && shouldExit == d.flags.shouldExit
    {
      var endtimer := false;
      var flashBackground := false;
      frames := [];
      var i := 0;
      ghost var ps := ReadAll(countdownLength, obs);
      ghost var start := Flags(false, false, shouldExit);
      while !shouldExit && i < |obs|
        invariant 0 <= i <= |obs|
        invariant Loop(Flags(endtimer, flashBackground, shouldExit), frames, ps, i) == Loop(start, [], ps, 0)
        decreases |obs| - i
      {
        ReadAllAt(countdownLength, obs, i);
        var frame;
        frame, endtimer, flashBackground := DrawPass(obs[i], endtimer, flashBackground);
        frames := frames + [frame];
        i := i + 1;
      }
      LoopRun(start, [], ps, 0);
      assert ps[0..] == ps;
      DisplayAfterLoop(countdownLength, old(shouldExit), obs, ackScreen, Trace(Flags(endtimer, flashBackground, shouldExit), frames));
      if endtimer && shouldExit {
        frames := frames + [AckFrame(ackScreen)];
        shouldExit := true;
      }
    }

    /**
     * One pass of the `displayTimer` loop: read the remaining time, draw the
     * frame (in reverse video on every other finished pass), then update
     * `endtimer` and, when a key is waiting after the finish, `shouldExit`.
     */
    method DrawPass(o: Observation, endtimer: bool, flashBackground: bool)
      returns (frame: Frame, endtimer': bool, flashBackground': bool)
      modifies this`shouldExit
      ensures var before := Flags(endtimer, flashBackground, old(shouldExit));
        && frame == Render(before, ReadPass(countdownLength, o))
        && Flags(endtimer', flashBackground', shouldExit) == Next(before, ReadPass(countdownLength, o))
    {
      var timeRemaining := GetRemainingTime(o.elapsed);
      var reverse := false;
      flashBackground' := flashBackground;
      if timeRemaining == Sentinel {
        if flashBackground {
          reverse := true;
        }
        flashBackground' := !flashBackground;
      }
      var middle := CenterText(timeRemaining, o.screen, "other");
      var top := CenterText(Title, o.screen, "top");
      frame := Frame(reverse, [middle, top]);
      endtimer' := endtimer;
      if timeRemaining == Sentinel {
        endtimer' := true;
      }
      if endtimer' && o.keyPending {
        shouldExit := true;
      }
    }

    /** `getRemainingTime`: the sentinel exactly when no time is left, else `HH:MM:SS`. */
    method GetRemainingTime(elapsed: int) returns (text: string)
      ensures text == RemainingTime(countdownLength, elapsed)
      ensures text == Sentinel <==> countdownLength - elapsed <= 0
    {
      FinishedIff(countdownLength, elapsed);
      text := RemainingTime(countdownLength, elapsed);
    }

    /** `start`: read the duration, then run the countdown. */
    method Start(inputs: seq<string>, promptScreen: ScreenSize, obs: seq<Observation>, ackScreen: ScreenSize)
      returns (frames: seq<Frame>)
      modifies this
      ensures FirstAccepted(inputs).None? ==>
        frames == [] && countdownLength == old(countdownLength) && shouldExit == old(shouldExit)
      ensures FirstAccepted(inputs).Some? ==>
        && countdownLength == FirstAccepted(inputs).value
        && var d := Display(countdownLength, old(shouldExit), obs, ackScreen);
           frames == d.frames && shouldExit == d.flags.shouldExit
    {
      var seconds, _, _ := GetTimeInput(inputs, promptScreen);
      if seconds.None? {
        return [];
      }
      countdownLength := seconds.value;
      frames := DisplayTimer(obs, ackScreen);
    }
  }
}
