/**
  The episodic-life wrapper: losing a life ends the episode seen by the caller,
  while the underlying game is reset only after a true game over.
*/
module EpisodicLife {
  import opened Environment

  /** The wrapper's own state: the last lives reading and whether the last step truly ended the game. */
  datatype LifeState = LifeState(lives: int, wasRealDone: bool)

  /** State of a freshly constructed wrapper. */
  const Initial := LifeState(0, true)

  /** Whether a lives reading forces the episode to end: a loss that leaves at least one life. */
  predicate LifeLost(previous: int, current: int) {
    current < previous && current > 0
  }

  datatype Stepped<E, O> = Stepped(state: LifeState, world: World<E, O>, result: StepResult<O>)

  /** `step`: delegate, remember the true done flag, end the episode on a life loss, refresh lives. */
  function LifeStep<E, O>(env: Env<E, O>, s: LifeState, w: World<E, O>, a: int): (r: Stepped<E, O>)
    ensures var (e', inner) := env.step(w.state, a);
      && r.world == World(e', w.log + [Step(a, inner)])
      && r.state.wasRealDone == inner.done
      && r.state.lives == env.lives(e')
      && r.result.obs == inner.obs
      && r.result.reward == inner.reward
      && (r.result.done <==> inner.done || (env.lives(e') < s.lives && env.lives(e') > 0))
  {
    var (w', inner) := DoStep(env, w, a);
    var lives := env.lives(w'.state);
    var done := if LifeLost(s.lives, lives) then true else inner.done;
    Stepped(LifeState(lives, inner.done), w', StepResult(inner.obs, inner.reward, done))
  }

  datatype WasReset<E, O> = WasReset(state: LifeState, world: World<E, O>, obs: O)

  /** `reset`: a real reset only after a true game over, otherwise a single no-op step. */
  function LifeReset<E, O>(env: Env<E, O>, s: LifeState, w: World<E, O>): (r: WasReset<E, O>)
    ensures |r.world.log| == |w.log| + 1 && r.world.log[..|w.log|] == w.log
    ensures s.wasRealDone ==>
      && r.obs == env.reset(w.state).1
      && r.world.log[|w.log|] == Reset(r.obs)
      && r.world.state == env.reset(w.state).0
    ensures !s.wasRealDone ==>
      && r.obs == env.step(w.state, 0).1.obs
      && r.world.log[|w.log|] == Step(0, env.step(w.state, 0).1)
      && r.world.state == env.step(w.state, 0).0
    ensures r.state.lives == env.lives(r.world.state)
    ensures r.state.wasRealDone == s.wasRealDone
  {
    if s.wasRealDone then
      var (w', o) := DoReset(env, w);
      WasReset(s.(lives := env.lives(w'.state)), w', o)
    else
      var (w', res) := DoStep(env, w, 0);
      WasReset(s.(lives := env.lives(w'.state)), w', res.obs)
  }

  /**
    A step followed by a reset: the underlying game is reset exactly when the
    step truly ended it; after a mere life loss the reset issues one no-op step
    and the game goes on.
  */
  lemma StepThenReset<E, O>(env: Env<E, O>, s: LifeState, w: World<E, O>, a: int)
    ensures var st := LifeStep(env, s, w, a);
      var rs := LifeReset(env, st.state, st.world);
      var inner := env.step(w.state, a).1;
      && |rs.world.log| == |w.log| + 2
      && rs.world.log[|w.log|] == Step(a, inner)
      && (rs.world.log[|w.log| + 1].Reset? <==> inner.done)
      && (!inner.done ==> rs.world.log[|w.log| + 1].Step? && rs.world.log[|w.log| + 1].action == 0)
  {
    var st := LifeStep(env, s, w, a);
    var rs := LifeReset(env, st.state, st.world);
    assert rs.world.log[..|st.world.log|] == st.world.log;
    assert rs.world.log[|w.log|] == st.world.log[|w.log|];
  }

  /** Losing the last life never ends the episode by itself: only the underlying done flag can. */
  lemma LastLifeDefersToGame<E, O>(env: Env<E, O>, s: LifeState, w: World<E, O>, a: int)
    requires env.lives(env.step(w.state, a).0) <= 0
    ensures LifeStep(env, s, w, a).result.done == env.step(w.state, a).1.done
  {
  }

  /** The done flag the wrapper would report at each reading, for a game that never ends on its own. */
  function ForcedDones(previous: int, readings: seq<int>): (r: seq<bool>)
    ensures |r| == |readings|
    ensures forall i :: 0 <= i < |readings| ==>
      (r[i] <==> LifeLost(if i == 0 then previous else readings[i - 1], readings[i]))
    decreases |readings|
  {
    if |readings| == 0 then []
    else [LifeLost(previous, readings[0])] + ForcedDones(readings[0], readings[1..])
  }

  /** The done flags the wrapper reports over a run of steps with actions `acts`. */
  function Dones<E, O>(env: Env<E, O>, s: LifeState, w: World<E, O>, acts: seq<int>): seq<bool>
    decreases |acts|
  {
    if |acts| == 0 then []
    else
      var st := LifeStep(env, s, w, acts[0]);
      [st.result.done] + Dones(env, st.state, st.world, acts[1..])
  }

  /** The emulator's lives readings after each step of the same run. */
  function Readings<E, O>(env: Env<E, O>, w: World<E, O>, acts: seq<int>): seq<int>
    decreases |acts|
  {
    if |acts| == 0 then []
    else
      var (w', _) := DoStep(env, w, acts[0]);
      [env.lives(w'.state)] + Readings(env, w', acts[1..])
  }

  /** No step of the run ends the underlying game. */
  predicate NeverEnds<E, O>(env: Env<E, O>, w: World<E, O>, acts: seq<int>)
    decreases |acts|
  {
    |acts| == 0 ||
      var (w', res) := DoStep(env, w, acts[0]);
      !res.done && NeverEnds(env, w', acts[1..])
  }

  /**
    While the underlying game goes on, the wrapper ends an episode exactly at
    the readings that drop to a still-positive count.
  */
  lemma {:induction false} DonesAreForced<E, O>(env: Env<E, O>, s: LifeState, w: World<E, O>, acts: seq<int>)
    requires NeverEnds(env, w, acts)
    ensures Dones(env, s, w, acts) == ForcedDones(s.lives, Readings(env, w, acts))
    decreases |acts|
  {
    if |acts| > 0 {
      var st := LifeStep(env, s, w, acts[0]);
      DonesAreForced(env, st.state, st.world, acts[1..]);
    }
  }

  /** A game that never ends, whose lives read 3, 3, 2, 2, 1, 0 as its step counter advances. */
  function CountdownGame(): Env<int, int> {
    Env(
      (e: int) => (e, 0),
      (e: int, a: int) => (e + 1, StepResult(e + 1, 0.0, false)),
      (e: int) => if e <= 1 then 3 else if e <= 3 then 2 else if e == 4 then 1 else 0)
  }

  /** Lives 3, 3, 2, 2, 1, 0: the wrapper ends the episode at 3 to 2 and at 2 to 1, not at 1 to 0. */
  lemma LivesCountdown()
    ensures Dones(CountdownGame(), LifeState(3, false), World(0, []), [0, 0, 0, 0, 0])
      == [false, true, false, true, false]
  {
    var env, acts := CountdownGame(), [0, 0, 0, 0, 0];
    var w: World<int, int> := World(0, []);
    assert Readings(env, w, acts) == [3, 2, 2, 1, 0];
    assert NeverEnds(env, w, acts);
    DonesAreForced(env, LifeState(3, false), w, acts);
    assert ForcedDones(3, [3, 2, 2, 1, 0]) == [false, true, false, true, false];
  }
}
