/**
  The interactive recording loop: each frame, deliver the keyboard events,
  turn the key buffer into an action, step the wrapped game, record the
  transition, and reset after an episode end, until the space bar is pressed.

  The environment stepped is the episodic-life wrapper around `inner`, which
  stands for the no-op reset wrapper around the emulator. The loop itself is
  unbounded; here it runs over a finite script of per-frame key events.
*/
module Recorder {
  import opened Results
  import opened Environment
  import EpisodicLife
  import Keys

  /** One recorded step: observation before, reward, done flag, action, observation after. */
  datatype Transition<O> = Transition(before: O, reward: real, done: bool, action: int, after: O)

  /** The observation the most recent call handed back. */
  function CurrentObs<O>(t: seq<Event<O>>): O
    requires |t| > 0
  {
    EventObs(t[|t| - 1])
  }

  /**
    The transitions a correct recorder takes from a trace of wrapper calls:
    every step is recorded from the observation the call before it returned.
  */
  function Transitions<O>(t: seq<Event<O>>): (r: seq<Transition<O>>)
    requires |t| > 0
    decreases |t|
  {
    if |t| == 1 then []
    else
      var p := t[..|t| - 1];
      match t[|t| - 1]
      case Reset(_) => Transitions(p)
      case Step(a, res) => Transitions(p) + [Transition(CurrentObs(p), res.reward, res.done, a, res.obs)]
  }

  /** The loop's state. `trace` logs the calls made on the episodic-life wrapper. */
  datatype Recorder<E, O> = Recorder(
    keys: Keys.KeyState,
    life: EpisodicLife.LifeState,
    world: World<E, O>,
    current: O,
    replay: seq<Transition<O>>,
    trace: seq<Event<O>>,
    episodes: nat)

  /**
    The recorder's invariant: the trace starts with a reset, a reset follows
    every episode end and no other step, the current observation is the last
    one handed back, the replay is exactly the transitions of the trace, and
    `episodes` counts the episode ends.
  */
  ghost predicate Consistent<E, O>(r: Recorder<E, O>) {
    && |r.trace| > 0
    && r.trace[0].Reset?
    && ResetFollowsDone(r.trace)
    && ResetOnlyAfterDone(r.trace)
    && r.current == CurrentObs(r.trace)
    && r.replay == Transitions(r.trace)
    && r.episodes == DoneCount(r.trace)
    && Keys.WellFormed(r.keys.buffer)
  }

  /**
    Replaying a trace of wrapper calls through the episodic-life wrapper on
    `inner`: the wrapper state and world reached, provided every logged
    response is the one the wrapper gives.
  */
  ghost function LifeReplay<E, O>(inner: Env<E, O>, life0: EpisodicLife.LifeState, w0: World<E, O>, trace: seq<Event<O>>)
    : Option<(EpisodicLife.LifeState, World<E, O>)>
    decreases |trace|
  {
    if |trace| == 0 then Some((life0, w0))
    else
      match LifeReplay(inner, life0, w0, trace[..|trace| - 1])
      case None => None
      case Some((life, w)) =>
        match trace[|trace| - 1]
        case Reset(o) =>
          var rs := EpisodicLife.LifeReset(inner, life, w);
          if rs.obs == o then Some((rs.state, rs.world)) else None
        case Step(a, res) =>
          var st := EpisodicLife.LifeStep(inner, life, w, a);
          if st.result == res then Some((st.state, st.world)) else None
  }

  lemma {:induction false} LifeReplayAppend<E, O>(inner: Env<E, O>, life0: EpisodicLife.LifeState, w0: World<E, O>, trace: seq<Event<O>>, life: EpisodicLife.LifeState, w: World<E, O>, e: Event<O>)
    requires LifeReplay(inner, life0, w0, trace) == Some((life, w))
    ensures e.Reset? && e.obs == EpisodicLife.LifeReset(inner, life, w).obs ==>
      var rs := EpisodicLife.LifeReset(inner, life, w);
      LifeReplay(inner, life0, w0, trace + [e]) == Some((rs.state, rs.world))
    ensures e.Step? && e.result == EpisodicLife.LifeStep(inner, life, w, e.action).result ==>
      var st := EpisodicLife.LifeStep(inner, life, w, e.action);
      LifeReplay(inner, life0, w0, trace + [e]) == Some((st.state, st.world))
  {
    assert (trace + [e])[..|trace|] == trace;
  }

  /** Before the loop: a fresh episodic-life wrapper on `inner` is reset once. */
  function Start<E, O>(inner: Env<E, O>, w: World<E, O>): (r: Recorder<E, O>)
    ensures Consistent(r)
    ensures r.keys == Keys.Initial && r.replay == [] && r.trace == [Reset(r.current)]
    ensures var rs := EpisodicLife.LifeReset(inner, EpisodicLife.Initial, w);
      r.current == rs.obs && r.life == rs.state && r.world == rs.world
    ensures LifeReplay(inner, EpisodicLife.Initial, w, r.trace) == Some((r.life, r.world))
  {
    var rs := EpisodicLife.LifeReset(inner, EpisodicLife.Initial, w);
    CountsAppend([], Reset(rs.obs));
    LifeReplayAppend(inner, EpisodicLife.Initial, w, [], EpisodicLife.Initial, w, Reset(rs.obs));
    assert [Reset(rs.obs)] == [] + [Reset(rs.obs)];
    Recorder(Keys.Initial, rs.state, rs.world, rs.obs, [], [Reset(rs.obs)], 0)
  }

  /**
    What one iteration does apart from updating the current observation
    (main.py:141-152): apply the frame's key events, step the wrapper on
    `inner` with the buffer's action, record the transition from the current
    observation, and reset the wrapper when the step ended the episode.
  */
  ghost predicate OneIteration<E, O>(inner: Env<E, O>, vocab: map<string, int>, r: Recorder<E, O>, events: seq<Keys.KeyEvent>, r': Recorder<E, O>)
    requires "NOOP" in vocab
  {
    var keys := Keys.ApplyEvents(r.keys, events);
    var a := Keys.ToAction(keys.buffer, vocab);
    var st := EpisodicLife.LifeStep(inner, r.life, r.world, a);
    var res := st.result;
    && r'.keys == keys
    && r'.replay == r.replay + [Transition(r.current, res.reward, res.done, a, res.obs)]
    && if res.done then
         var rs := EpisodicLife.LifeReset(inner, st.state, st.world);
         && r'.trace == r.trace + [Step(a, res), Reset(rs.obs)]
         && r'.life == rs.state && r'.world == rs.world
         && r'.episodes == r.episodes + 1
       else
         && r'.trace == r.trace + [Step(a, res)]
         && r'.life == st.state && r'.world == st.world
         && r'.episodes == r.episodes
  }

  /** One iteration, before the current observation is updated. */
  datatype Tick<E, O> = Tick(rec: Recorder<E, O>, stepObs: O, resetObs: Option<O>)

  function Advance<E, O>(inner: Env<E, O>, vocab: map<string, int>, r: Recorder<E, O>, events: seq<Keys.KeyEvent>): Tick<E, O>
    requires "NOOP" in vocab
  {
    var keys := Keys.ApplyEvents(r.keys, events);
    var a := Keys.ToAction(keys.buffer, vocab);
    var st := EpisodicLife.LifeStep(inner, r.life, r.world, a);
    var res := st.result;
    var replay := r.replay + [Transition(r.current, res.reward, res.done, a, res.obs)];
    var trace := r.trace + [Step(a, res)];
    if res.done then
      var rs := EpisodicLife.LifeReset(inner, st.state, st.world);
      Tick(Recorder(keys, rs.state, rs.world, r.current, replay, trace + [Reset(rs.obs)], r.episodes + 1), res.obs, Some(rs.obs))
    else
      Tick(Recorder(keys, st.state, st.world, r.current, replay, trace, r.episodes), res.obs, None)
  }

  /**
    One iteration as the program writes it: the current observation becomes the
    step's observation, and the observation the reset returns is dropped.
  */
  function FrameAsWritten<E, O>(inner: Env<E, O>, vocab: map<string, int>, r: Recorder<E, O>, events: seq<Keys.KeyEvent>): (r': Recorder<E, O>)
    requires "NOOP" in vocab
    ensures OneIteration(inner, vocab, r, events, r')
    ensures |r'.trace| > |r.trace| && r'.trace[|r.trace|].Step?
    ensures r'.current == r'.trace[|r.trace|].result.obs
  {
    var t := Advance(inner, vocab, r, events);
    t.rec.(current := t.stepObs)
  }

  lemma {:induction false} TransitionsAppendStep<O>(t: seq<Event<O>>, a: int, res: StepResult<O>)
    requires |t| > 0
    ensures Transitions(t + [Step(a, res)]) == Transitions(t) + [Transition(CurrentObs(t), res.reward, res.done, a, res.obs)]
  {
    assert (t + [Step(a, res)])[..|t|] == t;
  }

  lemma {:induction false} TransitionsAppendReset<O>(t: seq<Event<O>>, o: O)
    requires |t| > 0
    ensures Transitions(t + [Reset(o)]) == Transitions(t)
  {
    assert (t + [Reset(o)])[..|t|] == t;
  }

  /** Appending a step that goes on, or an ending step and its reset, keeps both reset rules. */
  lemma ResetRulesAppend<O>(t: seq<Event<O>>, a: int, res: StepResult<O>, o: O)
    requires |t| > 0 && ResetFollowsDone(t) && ResetOnlyAfterDone(t)
    ensures !res.done ==> ResetFollowsDone(t + [Step(a, res)]) && ResetOnlyAfterDone(t + [Step(a, res)])
    ensures res.done ==>
      ResetFollowsDone(t + [Step(a, res), Reset(o)]) && ResetOnlyAfterDone(t + [Step(a, res), Reset(o)])
  {
    var u := t + [Step(a, res), Reset(o)];
    assert forall i :: 0 <= i < |t| ==> u[i] == t[i];
  }

  lemma AdvanceKeepsTrace<E, O>(inner: Env<E, O>, vocab: map<string, int>, r: Recorder<E, O>, events: seq<Keys.KeyEvent>)
    requires "NOOP" in vocab && Consistent(r)
    ensures var t := Advance(inner, vocab, r, events);
      && OneIteration(inner, vocab, r, events, t.rec)
      && |t.rec.trace| > 0
      && t.rec.trace[0].Reset?
      && ResetFollowsDone(t.rec.trace)
      && ResetOnlyAfterDone(t.rec.trace)
      && t.rec.replay == Transitions(t.rec.trace)
      && t.rec.episodes == DoneCount(t.rec.trace)
      && Keys.WellFormed(t.rec.keys.buffer)
      && CurrentObs(t.rec.trace) == (if t.resetObs.Some? then t.resetObs.value else t.stepObs)
  {
    var keys := Keys.ApplyEvents(r.keys, events);
    var a := Keys.ToAction(keys.buffer, vocab);
    var res := EpisodicLife.LifeStep(inner, r.life, r.world, a).result;
    var stepped := r.trace + [Step(a, res)];
    TransitionsAppendStep(r.trace, a, res);
    CountsAppend(r.trace, Step(a, res));
    var t := Advance(inner, vocab, r, events);
    if res.done {
      ResetRulesAppend(r.trace, a, res, t.resetObs.value);
      TransitionsAppendReset(stepped, t.resetObs.value);
      CountsAppend(stepped, Reset(t.resetObs.value));
      assert stepped + [Reset(t.resetObs.value)] == r.trace + [Step(a, res), Reset(t.resetObs.value)];
    } else {
      ResetRulesAppend(r.trace, a, res, r.current);
    }
  }

  /**
    One iteration, corrected: after an episode end the current observation is
    the one the reset returned, so every transition starts where the game is.
  */
  function Frame<E, O>(inner: Env<E, O>, vocab: map<string, int>, r: Recorder<E, O>, events: seq<Keys.KeyEvent>): (r': Recorder<E, O>)
    requires "NOOP" in vocab && Consistent(r)
    ensures OneIteration(inner, vocab, r, events, r')
    ensures Consistent(r')
  {
    var t := Advance(inner, vocab, r, events);
    AdvanceKeepsTrace(inner, vocab, r, events);
    t.rec.(current := if t.resetObs.Some? then t.resetObs.value else t.stepObs)
  }

  /** The key state after the events of the first `n` frames. */
  function KeysAt(frames: seq<seq<Keys.KeyEvent>>, n: nat): (r: Keys.KeyState)
    requires n <= |frames|
    ensures Keys.WellFormed(r.buffer)
  {
    if n == 0 then Keys.Initial
    else Keys.ApplyEvents(KeysAt(frames, n - 1), frames[n - 1])
  }

  /** The exit flag, once raised by the space bar in some frame, stays raised. */
  lemma {:induction false} ExitAt(frames: seq<seq<Keys.KeyEvent>>, n: nat)
    requires n <= |frames|
    ensures KeysAt(frames, n).exit <==> exists j :: 0 <= j < n && Keys.ExitPressed(frames[j])
  {
    if n > 0 {
      ExitAt(frames, n - 1);
    }
  }

  /** An iteration extends the trace by exactly the wrapper's own calls on `inner`. */
  lemma FrameReplays<E, O>(inner: Env<E, O>, vocab: map<string, int>, w: World<E, O>, r: Recorder<E, O>, events: seq<Keys.KeyEvent>, r': Recorder<E, O>)
    requires "NOOP" in vocab
    requires LifeReplay(inner, EpisodicLife.Initial, w, r.trace) == Some((r.life, r.world))
    requires OneIteration(inner, vocab, r, events, r')
    ensures LifeReplay(inner, EpisodicLife.Initial, w, r'.trace) == Some((r'.life, r'.world))
  {
    var keys := Keys.ApplyEvents(r.keys, events);
    var a := Keys.ToAction(keys.buffer, vocab);
    var st := EpisodicLife.LifeStep(inner, r.life, r.world, a);
    LifeReplayAppend(inner, EpisodicLife.Initial, w, r.trace, r.life, r.world, Step(a, st.result));
    if st.result.done {
      var rs := EpisodicLife.LifeReset(inner, st.state, st.world);
      LifeReplayAppend(inner, EpisodicLife.Initial, w, r.trace + [Step(a, st.result)], st.state, st.world, Reset(rs.obs));
      assert r.trace + [Step(a, st.result)] + [Reset(rs.obs)] == r'.trace;
    }
  }

  /** Every recorded action is the one the key buffer showed in its frame. */
  ghost predicate ActionsFollowKeys<O>(replay: seq<Transition<O>>, frames: seq<seq<Keys.KeyEvent>>, vocab: map<string, int>)
    requires "NOOP" in vocab
  {
    && |replay| <= |frames|
    && forall i :: 0 <= i < |replay| ==> replay[i].action == Keys.ToAction(KeysAt(frames, i + 1).buffer, vocab)
  }

  lemma FrameFollowsKeys<O>(vocab: map<string, int>, frames: seq<seq<Keys.KeyEvent>>, replay: seq<Transition<O>>, t: Transition<O>, keys: Keys.KeyState)
    requires "NOOP" in vocab
    requires |replay| < |frames| && keys == KeysAt(frames, |replay|)
    requires ActionsFollowKeys(replay, frames, vocab)
    requires t.action == Keys.ToAction(Keys.ApplyEvents(keys, frames[|replay|]).buffer, vocab)
    ensures Keys.ApplyEvents(keys, frames[|replay|]) == KeysAt(frames, |replay| + 1)
    ensures ActionsFollowKeys(replay + [t], frames, vocab)
  {
    var n := |replay|;
    forall j | 0 <= j < n + 1
      ensures (replay + [t])[j].action == Keys.ToAction(KeysAt(frames, j + 1).buffer, vocab)
    {
      if j < n {
        assert (replay + [t])[j] == replay[j];
      }
    }
  }

  /** What the loop of `Record` needs from one iteration on frame `|r.replay|`. */
  lemma LoopStep<E, O>(inner: Env<E, O>, vocab: map<string, int>, w: World<E, O>, frames: seq<seq<Keys.KeyEvent>>, r: Recorder<E, O>, r': Recorder<E, O>)
    requires "NOOP" in vocab
    requires |r.replay| < |frames| && r.keys == KeysAt(frames, |r.replay|)
    requires ActionsFollowKeys(r.replay, frames, vocab)
    requires LifeReplay(inner, EpisodicLife.Initial, w, r.trace) == Some((r.life, r.world))
    requires OneIteration(inner, vocab, r, frames[|r.replay|], r')
    ensures |r'.replay| == |r.replay| + 1
    ensures r'.keys == KeysAt(frames, |r'.replay|)
    ensures ActionsFollowKeys(r'.replay, frames, vocab)
    ensures LifeReplay(inner, EpisodicLife.Initial, w, r'.trace) == Some((r'.life, r'.world))
    ensures r'.keys.exit <==> exists j :: 0 <= j < |r'.replay| && Keys.ExitPressed(frames[j])
  {
    var i := |r.replay|;
    FrameReplays(inner, vocab, w, r, frames[i], r');
    assert r'.replay == r.replay + [r'.replay[i]];
    FrameFollowsKeys(vocab, frames, r.replay, r'.replay[i], r.keys);
    ExitAt(frames, i + 1);
  }

  /**
    The recording session: an initial reset, then one recorded transition per
    frame until the frame in which the space bar is pressed, or the script ends.
  */
  method Record<E, O>(inner: Env<E, O>, w: World<E, O>, vocab: map<string, int>, frames: seq<seq<Keys.KeyEvent>>)
    returns (replay: seq<Transition<O>>, episodes: nat, trace: seq<Event<O>>, w': World<E, O>)
    requires "NOOP" in vocab
    ensures |replay| <= |frames|
    ensures |replay| == |frames| || (|replay| > 0 && Keys.ExitPressed(frames[|replay| - 1]))
    ensures forall i :: 0 <= i < |replay| - 1 ==> !Keys.ExitPressed(frames[i])
    ensures ActionsFollowKeys(replay, frames, vocab)
    ensures LifeReplay(inner, EpisodicLife.Initial, w, trace).Some?
    ensures LifeReplay(inner, EpisodicLife.Initial, w, trace).value.1 == w'
    ensures |trace| > 0 && trace[0].Reset? && ResetFollowsDone(trace) && ResetOnlyAfterDone(trace)
    ensures replay == Transitions(trace)
    ensures episodes == DoneCount(trace)
  {
    var rec := Start(inner, w);
    var i := 0;
    while i < |frames|
      invariant 0 <= i <= |frames|
      invariant Consistent(rec)
      invariant LifeReplay(inner, EpisodicLife.Initial, w, rec.trace) == Some((rec.life, rec.world))
      invariant |rec.replay| == i
      invariant rec.keys == KeysAt(frames, i)
      invariant ActionsFollowKeys(rec.replay, frames, vocab)
      invariant !rec.keys.exit
      invariant forall j :: 0 <= j < i ==> !Keys.ExitPressed(frames[j])
    {
      var next := Frame(inner, vocab, rec, frames[i]);
      LoopStep(inner, vocab, w, frames, rec, next);
      rec := next;
      i := i + 1;
      if rec.keys.exit {
        break;
      }
    }
    replay, episodes, trace, w' := rec.replay, rec.episodes, rec.trace, rec.world;
  }

  /** A game whose every step ends it, showing frame 7, and whose reset shows frame 100. */
  function DeadlyGame(): Env<int, int> {
    Env((e: int) => (e, 100), (e: int, a: int) => (e, StepResult(7, 0.0, true)), (e: int) => 0)
  }

  lemma DeadlyGameFrame(r: Recorder<int, int>)
    requires r.life.wasRealDone && r.keys == Keys.Initial
    ensures var t := Advance(DeadlyGame(), map["NOOP" := 0], r, []);
      && t.stepObs == 7
      && t.resetObs == Some(100)
      && t.rec.keys == Keys.Initial
      && t.rec.life.wasRealDone
      && t.rec.trace == r.trace + [Step(0, StepResult(7, 0.0, true)), Reset(100)]
      && t.rec.replay == r.replay + [Transition(r.current, 0.0, true, 0, 7)]
  {
    assert Keys.Concat(Keys.EmptyBuffer) == "";
    assert Keys.ApplyEvents(r.keys, []) == Keys.Initial;
  }

  /**
    The program as written loses the reset's observation: on a game whose first
    step ends it and whose reset shows frame 100, the next transition is
    recorded from the dead frame 7 although the game now shows frame 100.
  */
  lemma AsWrittenRecordsStaleObservation()
    ensures var r0 := Start(DeadlyGame(), World(0, []));
      var r1 := FrameAsWritten(DeadlyGame(), map["NOOP" := 0], r0, []);
      var r2 := FrameAsWritten(DeadlyGame(), map["NOOP" := 0], r1, []);
      && !Consistent(r1)
      && r1.current == 7 && CurrentObs(r1.trace) == 100
      && |r2.replay| == 2 && r2.replay[1].before == 7
      && |Transitions(r2.trace)| == 2 && Transitions(r2.trace)[1].before == 100
  {
    var env, vocab := DeadlyGame(), map["NOOP" := 0];
    var r0 := Start(env, World(0, []));
    assert r0.trace == [Reset(100)] && r0.current == 100 && r0.replay == [];
    DeadlyGameFrame(r0);
    var r1 := FrameAsWritten(env, vocab, r0, []);
    assert r1.current == 7;
    var t1 := [Reset(100), Step(0, StepResult(7, 0.0, true))];
    assert r1.trace == t1 + [Reset(100)];
    DeadlyGameFrame(r1);
    var r2 := FrameAsWritten(env, vocab, r1, []);
    assert r2.replay[1].before == 7;
    var t2 := r1.trace + [Step(0, StepResult(7, 0.0, true))];
    assert r2.trace == t2 + [Reset(100)];
    TransitionsAppendReset(t2, 100);
    TransitionsAppendStep(r1.trace, 0, StepResult(7, 0.0, true));
    TransitionsAppendReset(t1, 100);
    TransitionsAppendStep([Reset(100)], 0, StepResult(7, 0.0, true));
  }
}
