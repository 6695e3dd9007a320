/**
  The no-op reset wrapper: every reset is followed by a random number of no-op
  steps so that episodes start from varied states.
*/
module NoopReset {
  import opened Results
  import opened Environment
  import Keys

  /** Upper bound on the number of no-ops when the caller gives none. */
  const DefaultNoopMax := 30

  /** The wrapper assumes the no-op is action 0. */
  const NoopAction := 0

  /** The wrapper's configuration; `overrideNumNoops` replaces the random count when present. */
  datatype Config = Config(noopMax: int, overrideNumNoops: Option<int>)

  datatype NoopError =
    | NoActions         // the action list is empty, so its first entry cannot be read
    | NoopNotFirst      // the first action is not the no-op
    | EmptySampleRange  // the random draw from [1, noopMax] has an empty range
    | NonPositiveCount  // the number of no-ops is not positive

  /** Construction: the environment's first action must be the no-op. */
  function Construct(meanings: seq<string>, noopMax: int): (r: Result<Config, NoopError>)
    ensures r.Ok? <==> |meanings| > 0 && meanings[0] == "NOOP"
    ensures r.Ok? ==> r.value.noopMax == noopMax && r.value.overrideNumNoops == None
    ensures |meanings| == 0 ==> r == Err(NoActions)
  {
    if |meanings| == 0 then Err(NoActions)
    else if meanings[0] != "NOOP" then Err(NoopNotFirst)
    else Ok(Config(noopMax, None))
  }

  /**
    A successful construction guarantees the action lookup the recorder relies
    on: `NOOP` is in the vocabulary, and when it is listed only once it is
    action 0, the wrapper's no-op action.
  */
  lemma ConstructGuardsNoop(meanings: seq<string>, noopMax: int)
    requires Construct(meanings, noopMax).Ok?
    ensures "NOOP" in Keys.VocabOf(meanings)
    ensures (forall i :: 0 < i < |meanings| ==> meanings[i] != "NOOP") ==>
      Keys.VocabOf(meanings)["NOOP"] == NoopAction
  {
    assert meanings[0] == "NOOP";
  }

  /**
    The program wraps the game with the default bound: every draw the random
    generator can give then yields that many no-ops.
  */
  lemma DefaultConstruction(meanings: seq<string>, draw: int)
    requires |meanings| > 0 && meanings[0] == "NOOP"
    requires 1 <= draw <= DefaultNoopMax
    ensures Construct(meanings, DefaultNoopMax) == Ok(Config(30, None))
    ensures NoopCount(Construct(meanings, DefaultNoopMax).value, draw) == Ok(draw)
  {
  }

  /**
    The number of no-ops for one reset. `draw` is the value the emulator's random
    generator returns for a uniform integer in [1, noopMax]; it is only consulted
    when no override is set.
  */
  function NoopCount(cfg: Config, draw: int): (r: Result<nat, NoopError>)
    requires cfg.overrideNumNoops.None? && cfg.noopMax >= 1 ==> 1 <= draw <= cfg.noopMax
    ensures r.Ok? ==> r.value > 0
    ensures cfg.overrideNumNoops.Some? ==>
      && (r.Ok? <==> cfg.overrideNumNoops.value > 0)
      && (r.Ok? ==> r.value == cfg.overrideNumNoops.value)
      && (r.Err? ==> r.error == NonPositiveCount)
    ensures cfg.overrideNumNoops.None? ==>
      && (r.Ok? <==> cfg.noopMax >= 1)
      && (r.Ok? ==> r.value == draw && r.value <= cfg.noopMax)
      && (r.Err? ==> r.error == EmptySampleRange)
  {
    match cfg.overrideNumNoops
    case Some(n) => if n > 0 then Ok(n) else Err(NonPositiveCount)
    case None => if cfg.noopMax < 1 then Err(EmptySampleRange) else Ok(draw)
  }

  /** The calls one successful no-op reset makes, as promised: see `ResetWithNoops`. */
  predicate NoopResetCalls<O>(added: seq<Event<O>>, noops: nat) {
    && |added| > 0
    && added[0].Reset?
    && StepCount(added) == noops
    && OnlyAction(added, NoopAction)
    && ResetCount(added) == 1 + DoneCount(added)
    && ResetFollowsDone(added)
    && ResetOnlyAfterDone(added)
  }

  lemma AppendLiveNoop<O>(added: seq<Event<O>>, i: nat, res: StepResult<O>)
    requires NoopResetCalls(added, i) && !res.done
    ensures NoopResetCalls(added + [Step(NoopAction, res)], i + 1)
  {
    CountsAppend(added, Step(NoopAction, res));
  }

  lemma AppendDoneNoop<O>(added: seq<Event<O>>, i: nat, res: StepResult<O>, o: O)
    requires NoopResetCalls(added, i) && res.done
    ensures NoopResetCalls(added + [Step(NoopAction, res), Reset(o)], i + 1)
  {
    var stepped := added + [Step(NoopAction, res)];
    CountsAppend(added, Step(NoopAction, res));
    CountsAppend(stepped, Reset(o));
    assert stepped + [Reset(o)] == added + [Step(NoopAction, res), Reset(o)];
  }

  /**
    `reset`: one real reset, then exactly `noops` no-op steps; a step that ends
    the episode is followed by another reset and the count carries on.
    The first reset happens before the count is chosen, so it is made even when
    choosing the count fails.
  */
  method ResetWithNoops<E, O>(cfg: Config, env: Env<E, O>, w: World<E, O>, draw: int)
    returns (r: Result<O, NoopError>, w': World<E, O>)
    requires cfg.overrideNumNoops.None? && cfg.noopMax >= 1 ==> 1 <= draw <= cfg.noopMax
    ensures |w'.log| > |w.log| && w'.log[..|w.log|] == w.log && w'.log[|w.log|].Reset?
    ensures Replays(env, w.state, w'.log[|w.log|..], w'.state)
    ensures r.Err? <==> NoopCount(cfg, draw).Err?
    ensures r.Err? ==> r.error == NoopCount(cfg, draw).error && |w'.log| == |w.log| + 1
    ensures r.Ok? ==>
      && NoopResetCalls(w'.log[|w.log|..], NoopCount(cfg, draw).value)
      && r.value == EventObs(w'.log[|w'.log| - 1])
  {
    var (w0, o0) := DoReset(env, w);
    w' := w0;
    ghost var added: seq<Event<O>> := [Reset(o0)];
    ReplaysAppend(env, w.state, [], w.state, Reset(o0));
    assert [] + [Reset(o0)] == added;
    assert StepCount(added) == 0 && ResetCount(added) == 1 && DoneCount(added) == 0 by {
      CountsAppend([], Reset(o0));
    }
    assert w'.log[..|w.log|] == w.log;
    var count := NoopCount(cfg, draw);
    if count.Err? {
      assert w'.log[|w.log|..] == added;
      return Err(count.error), w';
    }
    var noops := count.value;
    var obs: Option<O> := None;
    var i := 0;
    while i < noops
      invariant 0 <= i <= noops
      invariant w'.log == w.log + added
      invariant NoopResetCalls(added, i)
      invariant Replays(env, w.state, added, w'.state)
      invariant i > 0 ==> obs == Some(EventObs(added[|added| - 1]))
    {
      var (w1, res) := DoStep(env, w', NoopAction);
      ReplaysAppend(env, w.state, added, w'.state, Step(NoopAction, res));
      w' := w1;
      obs := Some(res.obs);
      if res.done {
        var (w2, o) := DoReset(env, w');
        ReplaysAppend(env, w.state, added + [Step(NoopAction, res)], w'.state, Reset(o));
        assert added + [Step(NoopAction, res)] + [Reset(o)] == added + [Step(NoopAction, res), Reset(o)];
        w' := w2;
        obs := Some(o);
        AppendDoneNoop(added, i, res, o);
        added := added + [Step(NoopAction, res), Reset(o)];
      } else {
        AppendLiveNoop(added, i, res);
        added := added + [Step(NoopAction, res)];
      }
      i := i + 1;
    }
    assert w'.log[|w.log|..] == added;
    assert w'.log[..|w.log|] == w.log;
    r := Ok(obs.value);
  }

  /** `step` passes straight through: one underlying step with the same action, its response unchanged. */
  function StepThrough<E, O>(env: Env<E, O>, w: World<E, O>, a: int): (r: (World<E, O>, StepResult<O>))
    ensures r.1 == env.step(w.state, a).1
    ensures r.0 == World(env.step(w.state, a).0, w.log + [Step(a, r.1)])
  {
    DoStep(env, w, a)
  }
}
