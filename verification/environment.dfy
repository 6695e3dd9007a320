/**
  The abstract game environment the wrappers decorate.

  The emulator is not simulated: an environment is any state type `E` together
  with a total `reset`, a total `step` and a `lives` query (the emulator's own
  lives counter, read through `unwrapped.ale.lives()`). Observations are an
  opaque type `O`. A `World` pairs the current state with the log of every call
  made on it and the response it gave, so that contracts can speak about which
  calls a wrapper issued and in what order.
*/
module Environment {
  import opened Results

  /** What one `step` returns: observation, reward and the episode-end flag. */
  datatype StepResult<O> = StepResult(obs: O, reward: real, done: bool)

  /** One call made on an environment, with its response. */
  datatype Event<O> =
    | Reset(obs: O)
    | Step(action: int, result: StepResult<O>)

  /** The observation an event handed back to its caller. */
  function EventObs<O>(e: Event<O>): O {
    match e
    case Reset(o) => o
    case Step(_, res) => res.obs
  }

  /** An environment: transitions over an opaque state, and the lives query. */
  datatype Env<!E, O> = Env(
    reset: E -> (E, O),
    step: (E, int) -> (E, StepResult<O>),
    lives: E -> int)

  /** The environment's current state and every call made on it so far. */
  datatype World<E, O> = World(state: E, log: seq<Event<O>>)

  /** Calls `reset` once and records it. */
  function DoReset<E, O>(env: Env<E, O>, w: World<E, O>): (r: (World<E, O>, O))
    ensures r.0.state == env.reset(w.state).0
    ensures r.1 == env.reset(w.state).1
    ensures r.0.log == w.log + [Reset(r.1)]
  {
    var (e, o) := env.reset(w.state);
    (World(e, w.log + [Reset(o)]), o)
  }

  /** Calls `step(a)` once and records it. */
  function DoStep<E, O>(env: Env<E, O>, w: World<E, O>, a: int): (r: (World<E, O>, StepResult<O>))
    ensures r.0.state == env.step(w.state, a).0
    ensures r.1 == env.step(w.state, a).1
    ensures r.0.log == w.log + [Step(a, r.1)]
  {
    var (e, res) := env.step(w.state, a);
    (World(e, w.log + [Step(a, res)]), res)
  }

  /**
    Replaying `log` on `env` from state `e0`: the state reached, provided every
    logged response is the one the environment gives from the state before it.
  */
  ghost function Replay<E, O>(env: Env<E, O>, e0: E, log: seq<Event<O>>): Option<E>
    decreases |log|
  {
    if |log| == 0 then Some(e0)
    else
      match Replay(env, e0, log[..|log| - 1])
      case None => None
      case Some(prev) =>
        match log[|log| - 1]
        case Reset(o) => if env.reset(prev).1 == o then Some(env.reset(prev).0) else None
        case Step(a, res) => if env.step(prev, a).1 == res then Some(env.step(prev, a).0) else None
  }

  /** `log` is exactly what `env` answers from `e0`, and it leaves the environment in `e1`. */
  ghost predicate Replays<E, O>(env: Env<E, O>, e0: E, log: seq<Event<O>>, e1: E) {
    Replay(env, e0, log) == Some(e1)
  }

  /** A replayed log extended by one genuine reset or step is still replayed. */
  lemma {:induction false} ReplaysAppend<E, O>(env: Env<E, O>, e0: E, log: seq<Event<O>>, e1: E, e: Event<O>)
    requires Replays(env, e0, log, e1)
    ensures e.Reset? && e.obs == env.reset(e1).1 ==> Replays(env, e0, log + [e], env.reset(e1).0)
    ensures e.Step? && e.result == env.step(e1, e.action).1 ==> Replays(env, e0, log + [e], env.step(e1, e.action).0)
  {
    assert (log + [e])[..|log|] == log;
  }

  // ---------------------------------------------------------------------------
  // Counting calls in a log. Each is defined on the last element so that
  // appending one call unfolds one step.

  /** Number of `step` calls. */
  function StepCount<O>(t: seq<Event<O>>): nat {
    if |t| == 0 then 0
    else StepCount(t[..|t| - 1]) + (if t[|t| - 1].Step? then 1 else 0)
  }

  /** Number of `reset` calls. */
  function ResetCount<O>(t: seq<Event<O>>): nat {
    if |t| == 0 then 0
    else ResetCount(t[..|t| - 1]) + (if t[|t| - 1].Reset? then 1 else 0)
  }

  /** Number of `step` calls whose response ended the episode. */
  function DoneCount<O>(t: seq<Event<O>>): nat {
    if |t| == 0 then 0
    else DoneCount(t[..|t| - 1]) + (if t[|t| - 1].Step? && t[|t| - 1].result.done then 1 else 0)
  }

  lemma {:induction false} CountsAppend<O>(t: seq<Event<O>>, e: Event<O>)
    ensures StepCount(t + [e]) == StepCount(t) + (if e.Step? then 1 else 0)
    ensures ResetCount(t + [e]) == ResetCount(t) + (if e.Reset? then 1 else 0)
    ensures DoneCount(t + [e]) == DoneCount(t) + (if e.Step? && e.result.done then 1 else 0)
  {
    assert (t + [e])[..|t + [e]| - 1] == t;
  }

  /** Every `step` call in the log used `action`. */
  predicate OnlyAction<O>(t: seq<Event<O>>, action: int) {
    forall i :: 0 <= i < |t| && t[i].Step? ==> t[i].action == action
  }

  /** Every step that ended the episode is immediately followed by a reset. */
  predicate ResetFollowsDone<O>(t: seq<Event<O>>) {
    forall i :: 0 <= i < |t| && t[i].Step? && t[i].result.done ==> i + 1 < |t| && t[i + 1].Reset?
  }

  /** Apart from the first call, a reset only ever comes straight after a step that ended the episode. */
  predicate ResetOnlyAfterDone<O>(t: seq<Event<O>>) {
    forall i :: 0 < i < |t| && t[i].Reset? ==> t[i - 1].Step? && t[i - 1].result.done
  }
}
