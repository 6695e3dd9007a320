# Atari human-demonstration recorder, modelled in Dafny

The recorder lets a person play an Atari game with the keyboard and saves each step as a
transition (observation before, reward, done flag, action, observation after).
Its logic sits in three small state machines and a loop, all in `main.py`:

- **Episodic-life wrapper** (`EpisodicLifeEnv`). Losing a life ends the episode the caller
  sees. The game itself is only reset after a true game over; otherwise a reset is one
  no-op step. Modelled in `episodic_life.dfy`.
- **No-op reset wrapper** (`NoopResetEnv`). A reset is one real reset followed by a number
  of no-op steps. The number is drawn from [1, noop_max] or fixed by an override. A step
  that ends the episode during the no-ops triggers another reset, and the count carries on.
  Modelled in `noop_reset.dfy`.
- **Key-buffer action mapper**. Arrow keys and `z` write action names into a three-slot
  buffer: vertical, horizontal, fire. The slots are joined into a composite name such as
  `UPLEFTFIRE` and looked up in the game's action list, falling back to `NOOP`. The space
  bar ends the session. Modelled in `keys.dfy`.
- **Recording loop**. Each frame: deliver key events, compute the action, step the wrapped
  game, record the transition, and reset after an episode end. Modelled in `recorder.dfy`.

The game emulator is not simulated. An environment (`Environment.Env`) is any state type
with a total `reset`, a total `step` and a `lives` query. Observations are an opaque type
parameter. A `World` keeps the environment state and a log of every call made on it with
its response. `Environment.Replays` holds when a log is exactly what the environment answers
from a given state, and names the state it ends in. Contracts use it to say both which calls
a wrapper made and that every logged response came from the environment.
`results.dfy` holds `Option` and `Result`, which model `None` and raised errors.

## Model

| member | source | states |
|---|---|---|
| EpisodicLife.LifeStep | main.py:16-28 | Exactly one underlying step with the caller's action. The reported done flag is true exactly when the game ended or lives fell to a still-positive count. `was_real_done` is the game's own flag and `lives` is the fresh reading. Observation and reward pass through unchanged. |
| EpisodicLife.LifeReset | main.py:30-41 | After a true game over, exactly one underlying reset, and the result is the observation the game's reset returns. Otherwise exactly one underlying step with action 0, logged with the game's response, and the result is that step's observation. The new state is the game's, `lives` is re-read from it, and `was_real_done` is unchanged. |
| EpisodicLife.StepThenReset | main.py:16-41 | A step followed by a reset resets the underlying game exactly when the step truly ended it. After a mere life loss the reset is a no-op step and the game goes on. |
| EpisodicLife.LastLifeDefersToGame | main.py:22-26 | When the new lives reading is zero or less, the wrapper's done flag is the game's own flag: losing the last life never forces done by itself. |
| EpisodicLife.DonesAreForced | main.py:16-28 | Over any run of wrapper steps in which the game itself never ends, the done flags the wrapper reports are exactly the forced ones. The episode ends at step i exactly when the lives reading falls below the previous reading and stays positive. |
| EpisodicLife.LivesCountdown | main.py:22-27 | On a game whose lives read 3, 3, 2, 2, 1, 0, the wrapper reports done at 3 to 2 and at 2 to 1, but not at 1 to 0. |
| NoopReset.Construct | main.py:44-52 | Construction succeeds exactly when the first action is `NOOP`. An empty action list is an error. The override starts unset. |
| NoopReset.ConstructGuardsNoop | main.py:52-85 | A successful construction puts `NOOP` in the vocabulary, so the program's lookup of `NOOP` cannot fail. When `NOOP` is listed once, its index is 0, the wrapper's no-op action. |
| NoopReset.DefaultConstruction | main.py:44-79 | The program builds the wrapper with the default bound of 30 and no override. Every draw in [1, 30] is then the number of no-ops. |
| NoopReset.NoopCount | main.py:57-61 | The override, when set, is used and must be positive. Otherwise the draw from [1, noop_max] is used, and an empty range is an error. A successful count is always positive. |
| NoopReset.ResetWithNoops | main.py:54-67 | One initial reset always happens, even when choosing the count fails. Every logged response, and the final state, is what the game gave. On success the wrapper makes exactly `noops` steps, all with action 0. Every step that ends the episode is immediately followed by a reset, and no other reset happens. So resets = 1 + episode ends, and the count is not restarted. The result is the observation of the last call. |
| NoopReset.StepThrough | main.py:69-70 | Step is a pure pass-through: one underlying step with the same action, with its response and new state unchanged. |
| Keys.ActFromKey | main.py:87-105 | Exactly the four arrow keys and `z` are known. Each maps to a slot in 0..2 and a name that belongs to that slot's axis. |
| Keys.KeyPress | main.py:118-125 | The space bar sets the exit flag and leaves the buffer alone. A known key writes its name into its slot and leaves the other two slots alone. An unknown key changes nothing. Slot discipline is preserved. |
| Keys.KeyRelease | main.py:127-130 | A known key empties only its own slot. An unknown key, including the space bar, changes nothing. The exit flag and slot discipline are preserved. |
| Keys.PressThenRelease | main.py:118-130 | Releasing a key after pressing it leaves its slot empty. If the slot was empty before, the whole state is back to what it was. |
| Keys.ApplyEvents | main.py:118-130 | After a run of events, the exit flag is raised exactly when it already was or the space bar was pressed among them. The buffer keeps its slot discipline. |
| Keys.ToAction | main.py:107-116 | The result is always a value of the vocabulary. It is the composite's index when the composite is non-empty and listed, and `NOOP`'s index otherwise. |
| Keys.VocabOf | main.py:84 | The vocabulary has exactly the listed names as keys. Each maps to a position holding that name, and it is the last such position. |
| Keys.ActionIsListed | main.py:84-116 | With the game's own action list, the chosen action is a valid index into it. The index names the composite when the list has it, and `NOOP` otherwise. |
| Keys.EmptyBufferIsActionZero | main.py:84-85 | When `NOOP` is listed first and only once, an empty buffer selects action 0. |
| Keys.SplitConcat | main.py:93-108 | Reading the composite of a well-formed buffer back into slots recovers the buffer. |
| Keys.ConcatInjective | main.py:93-108 | Two different well-formed buffers never join into the same composite name. |
| Recorder.Start | main.py:137-138 | Before the loop, the episodic-life wrapper on the game is reset once. The current observation, wrapper state and world are that reset's, the trace is that one reset, and the replay is empty. |
| Recorder.FrameAsWritten | main.py:140-155 | One iteration as written: the frame's key events are applied, the wrapper steps with the buffer's action, and the transition is recorded with the game's reward, done flag and observation. The wrapper is reset when the step ended the episode. The current observation then becomes the step's observation, even after a reset. |
| Recorder.Frame | main.py:140-155 | The same iteration, but after a reset the current observation is the one the reset returned. The recorder invariant is kept. The replay is the transitions of the call trace. A reset follows every episode end and nothing else. `episodes` counts the ends. |
| Recorder.ExitAt | main.py:118-122 | Once the space bar is pressed in some frame, the exit flag stays raised in every later frame. |
| Recorder.Record | main.py:137-155 | One transition per frame, until the frame in which the space bar is pressed, or the end of the script. Each recorded action is the one the key buffer showed in its frame. The trace is exactly the episodic-life wrapper's run on the game from a fresh state, ending in the returned world. The replay is exactly the transitions of that trace. A reset follows every episode end and nothing else, and `episodes` counts the ends. |
| Recorder.AsWrittenRecordsStaleObservation | main.py:145-151 | In the loop as written, a reset after an episode end leaves the current observation at the terminal frame. The next transition is then recorded from a frame the game no longer shows. |

## Left out

- The emulator (`gym.make`, `unwrapped.ale.lives()`, `get_action_meanings()`) is an abstract environment given as a parameter. Its action list is a parameter too.
- The `info` dictionary returned by `step`, and the keyword arguments passed to `reset`, pass through unchanged and are not modelled.
- Observations are an opaque type. Pixel arrays and their contents are not modelled.
- The reward is a `real`. Floating-point rounding is not modelled.
- NoopReset.NoopCount: the call to `np_random.randint` is replaced by a `draw` parameter, which the caller promises lies in [1, noop_max]. An empty range is the error randint raises.
- The recording loop is unbounded. Here it runs over a finite script of per-frame key events, and an exhausted script also ends it.
- The model does not compose the two wrappers into one stack. `Recorder.Record` steps the episodic-life wrapper around an abstract inner environment, and that environment stands for the no-op reset wrapper around the emulator.
- Rendering, window callback registration, `time.sleep` pacing, `argparse` and the `print` diagnostics are I/O and are not modelled. Printing for an unknown key or an invalid composite changes no state.
- Saving with `pickle` (main.py:157-160) and all of `load.py` are file I/O and display. They are not modelled.
- The `mod` argument of the key callbacks is ignored by the program and is not modelled.
- In the code, the override of the no-op count may be any positive number, even one above `noop_max`. The "between 1 and the maximum" reading only holds for the random draw, and the model follows the code.

## Findings

| source | as written | input that shows it | evidently intended | confidence | as-written member | corrected member |
|---|---|---|---|---|---|---|
| main.py:146-151 | After a done step the loop calls `env.reset()` and discards the observation it returns. `s` stays the step's terminal observation. | A game whose step ends the game and shows frame 7, and whose reset shows frame 100. The second transition is recorded with observation-before 7, although the game shows 100. | `s = env.reset()`, so that every transition starts from the observation the game last returned. | medium; not executed | Recorder.FrameAsWritten, Recorder.AsWrittenRecordsStaleObservation | Recorder.Frame |

The rest of the model, `Recorder.Record` included, uses the corrected `Recorder.Frame`.
