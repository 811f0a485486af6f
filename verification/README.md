# Gameling core in Dafny

A model of the logic inside `gameling.js`, a small browser game framework:
the adaptive frame timer (`GL.Timer`), the game loop's step (`GL.Game`
`start`/`pause`/`tick`/`influence`/`stage`), the stage container
(`GL.Stage` `add`/`find`/`remove`/`tick`), the piece id generator
(`GL.Piece.generate_id`) and the exact-arithmetic part of `GL.Vector`.

The browser is abstracted away. The clock is an integer parameter `now`
(milliseconds). A `tick` is one pure step that returns the calls it made and
the delay it would hand to `setTimeout`. Canvases and DOM lookups are not
modelled; a stage is an id plus an ordered sequence of pieces.

Files and modules:

- `maybe.dfy` (`Maybe`): the `Option` type for `false`/`undefined` results.
- `vectors.dfy` (`Vectors`): `GL.Vector` over exact reals. The in-place
  mutators return the updated vector. `normalize` takes the length as a
  parameter, and `rotate` takes `cos`/`sin` as parameters.
- `frame_timer.dfy` (`FrameTimer`): `GL.Timer`. The coefficient is kept in
  hundredths, so `Math.round(ideal_fps / fps * 100) / 100` is exact:
  `100 * coefficient = floor((ideal_fps * elapsed + 5) / 10)`, where
  `Math.round` sends halves up. The contract states this against a
  real-number definition of the rounding (`IsRoundedCoefficient`).
- `pieces.dfy` (`Pieces`): pieces, influence rules and the shared id counter.
- `stages.dfy` (`Stages`): the container operations of `GL.Stage`.
- `game_loop.dfy` (`GameLoop`): `GL.Game`. Stages are kept in a map with
  their registration order. The game also holds the flat registry
  `pieces`. Each piece's `stage` link is a map from piece id to stage id.

Behaviour the model keeps on purpose, because the code does it:

- `find` returns the last match, because the `return` inside `forEach`
  does not stop the loop.
- `remove` of an id that is not there calls `splice(undefined, 1)`. On a
  non-empty stage this deletes the first piece.
- `remove` never touches `game.pieces` or the piece's `stage` link.
- `add` does not check for duplicates.
- `pause` only sets flags. The first tick after a restart still passes the
  coefficient from before the pause. Only that tick's `process` resets the
  coefficient to 1, and it does not count a frame.
- When two measurements fall in the same millisecond, the coefficient is 0.
  The code does not clamp it.
- The coefficient is `ideal_fps / (1000 / elapsed)`. At 30 fps, a
  1000 ms frame gives 30.00 and a 2000 ms frame gives 60.00.
- `get_difference(v)` is `this - v`.
- `find` is a linear scan over the stage's pieces.

## Model

| member | source | states |
|---|---|---|
| Vectors.Clone | gameling.js:317-319 | definition: a new vector built from the same two components (`ConstructDefaults` proves it equals the original) |
| Vectors.Add | gameling.js:273-277 | definition: componentwise sum; `AddSubtractInverse` relates it to `subtract` |
| Vectors.Subtract | gameling.js:279-283 | definition: componentwise difference; `AddSubtractInverse` relates it to `add` |
| Vectors.Scale | gameling.js:285-289 | definition: both components multiplied by the factor; `ScaleProperties` relates it to `reverse` and `add` |
| Vectors.Dot | gameling.js:291-293 | definition: `x*w.x + y*w.y`; `DotProperties` relates it to the raw length |
| Vectors.Reverse | gameling.js:295-298 | definition: both components multiplied by -1; `AddReverseIsZero` shows it is the additive inverse |
| Vectors.RawLength | gameling.js:325-327 | definition: `x*x + y*y`; `RawLengthProperties` gives its sign and scaling |
| Vectors.Difference | gameling.js:343-345 | definition: a new vector `this - w`; `DifferenceIsThisMinusOther` relates it to `subtract` and `reverse` |
| Vectors.RotateAsWritten | gameling.js:309-315 | definition, as written: the new `y` is computed from the already updated `x` |
| Vectors.Rotate | gameling.js:309-315 | definition, as evidently intended: both new components come from the original ones |
| Vectors.Construct | gameling.js:266-269 | a missing constructor argument gives component 0; a given one is kept |
| Vectors.ConstructDefaults | gameling.js:266-319 | `new GL.Vector()` is the zero vector, and `clone` copies both components |
| Vectors.AddSubtractInverse | gameling.js:273-283 | `subtract` undoes `add` and `add` undoes `subtract` |
| Vectors.AddReverseIsZero | gameling.js:273-298 | a vector plus its reverse is zero; `reverse` is an involution; `v - v` is zero |
| Vectors.ScaleProperties | gameling.js:285-298 | scaling by 1 is the identity, scaling by -1 is `reverse`, scaling distributes over `add` |
| Vectors.DotProperties | gameling.js:291-293 | `dot` is symmetric, and a vector dotted with itself is its raw length |
| Vectors.DifferenceIsThisMinusOther | gameling.js:343-345 | `get_difference(w)` is `this - w`, equals adding the reversed `w`, and swapping the operands reverses it |
| Vectors.RawLengthProperties | gameling.js:325-327 | the raw length is never negative, is positive exactly off the zero vector, and scales by `s*s` |
| Vectors.Normalize | gameling.js:300-307 | with `len` the true length, a zero vector is left unchanged, `len` is zero exactly for the zero vector, and otherwise the result has length 1 |
| Vectors.RotateAsWrittenQuarterTurn | gameling.js:309-315 | the code as written maps (1, 0) turned by a quarter to (0, 0), not (0, 1), so it does not keep length |
| Vectors.RotatePreservesLength | gameling.js:309-315 | the corrected rotation keeps the raw length, rotating back by the opposite angle restores the vector, and angle 0 is the identity |
| FrameTimer.Coefficient | gameling.js:253-256 | the coefficient in hundredths is `round(ideal_fps / (1000 / elapsed) * 100)` with halves rounded up, stated over the reals, and 0 when `elapsed` is 0 |
| FrameTimer.CoefficientIsTheRounding | gameling.js:256 | that rounding determines the coefficient uniquely (both directions) |
| FrameTimer.CoefficientExamples | gameling.js:253-256 | at 30 fps, 33 ms gives 0.99, 34 ms gives 1.02, 1000 ms gives 30.00, 2000 ms gives 60.00 and 0 ms gives 0; at 60 fps, 25 ms gives 1.50 |
| FrameTimer.CoefficientOfWholeFrames | gameling.js:253-256 | at 25 fps, a frame of `k` ideal intervals gives coefficient `k` exactly |
| FrameTimer.CoefficientMonotonic | gameling.js:253-256 | for a positive target rate, a longer frame never gives a smaller coefficient |
| FrameTimer.NewTimer | gameling.js:217-229 | a new timer is paused, has empty aggregations, coefficient 1, `last_time` = now and `interval = 1000 / ideal_fps` |
| FrameTimer.Pause | gameling.js:233-235 | `pause` sets the flag and changes nothing else |
| FrameTimer.Reset | gameling.js:237-243 | `reset` sets coefficient 1 and `last_time` = now and changes nothing else |
| FrameTimer.Process | gameling.js:245-263 | paused: reset, unpause, counters untouched. Running: `last_time` = now, `count` + 1, the coefficient is the rounded ratio for `now - last_time`, it is added to `total_coefficient`, and `interval` never changes |
| FrameTimer.PauseThenProcess | gameling.js:233-251 | the `process` right after `pause` pins the coefficient to 1 whatever time passed, and counts nothing |
| FrameTimer.RunAccumulates | gameling.js:253-262 | on a running timer, n calls of `process` add n to `count`, add the measured coefficients to `total_coefficient`, and leave `last_time` at the last timestamp |
| FrameTimer.Run | gameling.js:245-263 | definition: `process` applied once per timestamp, in order; `RunAccumulates` states what a run adds up to |
| FrameTimer.ThirtyFpsRun | gameling.js:245-263 | a 30 fps timer processed at 0, 33 and 67 ms ends with coefficient 1.02, two frames counted and a total of 2.01 |
| Pieces.GenerateId | gameling.js:204-209 | `generate_id` returns the counter's value, and the counter then moves on by one |
| Pieces.NewPiece | gameling.js:192-195 | a new piece has no influences and the next id |
| Pieces.FirstPieces | gameling.js:192-209 | the counter starts at 0, so the first two pieces created get ids 0 and 1, with no influences |
| Pieces.GenerateIds | gameling.js:204-209 | n successive ids are strictly increasing, so all differ, and they lie between the counter's old and new values |
| Stages.Add | gameling.js:161-165 | the stage gains the piece at its end; the earlier pieces stay as they were |
| Stages.Find | gameling.js:172-189 | `find` returns nothing exactly when no piece has the id; otherwise it returns the piece and index of the last match |
| Stages.FindFrom | gameling.js:176-186 | the `forEach` of `find` keeps the last match seen so far |
| Stages.FindAfterAdd | gameling.js:161-189 | `find` right after `add(p)` returns `p` at the last index, even if an earlier piece has the same id |
| Stages.FindAbsent | gameling.js:172-189 | `find` gives `false` exactly when no piece carries the id |
| Stages.SpliceOne | gameling.js:169 | `splice(start, 1)` deletes the element at `start`, keeping the others in order, or nothing when `start` is past the end |
| Stages.Remove | gameling.js:167-170 | `remove` deletes the last piece with the id. With no such piece it deletes the first piece, and on an empty stage it does nothing. The stage gets one shorter when non-empty |
| Stages.AddThenRemove | gameling.js:161-170 | removing the piece just added restores the stage exactly |
| Stages.RemoveDropsOne | gameling.js:167-170 | `remove` drops exactly one element from the multiset of pieces and keeps all others |
| Stages.RemoveAbsentDropsFirst | gameling.js:167-170 | for an absent id, `remove` deletes the first piece of a non-empty stage, which has a different id |
| Stages.Tick | gameling.js:157-159 | a stage's `tick` calls every piece's `tick` once, in order, with the same coefficient |
| Stages.TickAll | gameling.js:158 | the `forEach` of `tick`, piece by piece |
| GameLoop.NewGame | gameling.js:69-76 | a new game is paused, has no stages, no pieces and no `stage` links. Its timer is a fresh `new GL.Timer(rate)`: paused, `count` 0, coefficient 1.00, `last_time` = now, with the configured rate, or 30 when the rate is absent or 0 |
| GameLoop.EnsureStage | gameling.js:124-144 | a known stage id changes nothing; an unknown one registers a new empty stage under that id, last in the order |
| GameLoop.AddToStage | gameling.js:161-165 | `add` sets the piece's `stage`, appends the piece to that stage and to `game.pieces`, and changes no other stage, the timer or the flags |
| GameLoop.StagePiece | gameling.js:78-81 | `stage(id, p)` appends `p` to the stage with that id, creating it (last in the order) if needed, and to `game.pieces`; it sets `p`'s `stage` link; other stages, the timer and the paused flag are unchanged |
| GameLoop.RemoveFromStage | gameling.js:167-170 | `remove` changes only that stage; `game.pieces` and the `stage` links are untouched |
| GameLoop.TickStages | gameling.js:102-105 | the stage loop ticks the pieces of every stage in registration order, each with the given coefficient |
| GameLoop.Tick | gameling.js:93-112 | a paused game's `tick` is a no-op. Otherwise every staged piece is ticked in stage and piece order with the coefficient from before `process`; the timer then processes `now`, and the next tick is due after `interval` |
| GameLoop.Start | gameling.js:83-86 | `start` unpauses and ticks every staged piece once, in stage and piece order, with the coefficient the timer held. The timer then processes `now`, the next tick is due after `interval`, and stages and pieces are unchanged |
| GameLoop.Pause | gameling.js:88-91 | `pause` flags the game and its timer (the timer changes exactly as `FrameTimer.Pause` says), keeping the coefficient, `count`, `total_coefficient`, `last_time`, stages, pieces and `stage` links |
| GameLoop.Fires | gameling.js:118 | definition: a rule reaches its `affect` when it has no `detect` or its `detect` returns true |
| GameLoop.AffectsOf | gameling.js:117-120 | the inner loop yields at most one call per rule, each from `other`, for a listed rule whose `detect` is absent or true |
| GameLoop.InfluencePass | gameling.js:115-121 | every `affect` call comes from a registered piece other than `piece` (by id), with one of its own rules that fires |
| GameLoop.InfluenceOn | gameling.js:114-122 | `influence(piece)` makes calls only from pieces of `game.pieces` whose id differs from `piece`'s |
| GameLoop.AffectsOfMembership | gameling.js:117-120 | a rule's `affect` fires exactly when the rule is listed and its `detect` is absent or returns true |
| GameLoop.InfluenceMembership | gameling.js:114-122 | an `(other, rule)` call happens exactly when `other` is registered, `other`'s id differs from `piece`'s, the rule is one of `other`'s, and the rule fires |
| GameLoop.InfluenceInOrder | gameling.js:115-121 | the calls follow registry order: an earlier block of pieces makes all its calls before a later block |
| GameLoop.AffectsOfAppend | gameling.js:117-120 | the inner loop follows the order of `other.influences`: an earlier block of rules makes all its calls before a later block, with or without `detect` |
| GameLoop.RulesWithoutDetectAllFire | gameling.js:117-120 | rules without `detect` all fire, in the order they are listed |
| GameLoop.EnsureStageRoster | gameling.js:124-144 | registering a stage adds no piece to any stage |
| GameLoop.AddToStageRoster | gameling.js:161-165 | `add` puts the piece's id once more into the stages and once more into `game.pieces` |
| GameLoop.RemoveFromStageRoster | gameling.js:167-170 | `remove` takes at most one id out of the stages (exactly one when the stage is non-empty) and leaves `game.pieces` as it was |
| GameLoop.RegisteredPreserved | gameling.js:69-170 | a new game satisfies it, and every game operation (`stage`, `add`, `remove`, `start`, `tick`, `pause`) keeps the pieces held by stages within `game.pieces`, counted with multiplicity |
| GameLoop.StageTwiceReusesStage | gameling.js:124-144 | two `stage` calls with one id reuse one registered stage, which holds both pieces in call order |
| GameLoop.AddThenRemoveKeepsRegistry | gameling.js:161-170 | `remove` undoes a stage's `add` but not the registry's: the piece stays in `game.pieces` with its `stage` link |
| GameLoop.RestartUsesStaleCoefficient | gameling.js:83-107 | after `pause`, `start` ticks every staged piece with the pre-pause coefficient. Only then does `process` reset it to 1, without counting a frame |
| GameLoop.StartThenTick | gameling.js:83-112 | starting a paused game and ticking again passes 1.00 on the second tick, and then measures the first frame from the start time |

## Left out

- `Object.create` polyfill and `Constructor.extend`: prototype mechanics with no counterpart in a value model.
- DOM and canvas work in `_ensure_stage` and the `GL.Stage` constructor: platform I/O. A stage is its id and its pieces, and the configuration's `el`, `width` and `height` are dropped.
- `window.setTimeout` and `new Date().getTime()`: a tick is one step. Its scheduled delay is returned, and the time comes in as `now`. Two tick chains running at once (from `start` on a running game) are not modelled.
- `for (key in stages)` visits integer-like keys first, in ascending order. The model uses registration order for all stage ids.
- `Timer.fps`, `total_fps`, `average_fps`, `average_coefficient`: these need floating division (and the averages are only ever set to 0).
- `get_length`, `get_distance_from`, `get_angle_to`, `get_own_angle`, `to_string`: these need `sqrt`, `atan2` or string formatting. `normalize` receives the length as a parameter.
- `GL.GRAVITY`, `GL.COLLISIONS`, `GL.BOUNDRIES`: floating-point physics. Influence rules appear only as named rules with an optional `detect`. The outcome of `detect` is a fixed function, so an `affect` that changes what a later `detect` sees is not modelled.
- `Piece.tick`, `Piece.influence` and `Piece.destroy`: user-overridable bodies, and a wrapper around `stage.remove`. A piece's `tick` is recorded as a call.
- FrameTimer.Coefficient: computed in exact arithmetic, not IEEE doubles. At an exact half, the double value of `ideal_fps / fps * 100` can fall just below and round down. Likewise `total_coefficient` sums exact hundredths, where gameling.js adds doubles that may drift in the last place.
- GameLoop.EnsureStage: `this.stages` is a plain `{}` literal, so ids naming inherited members (`toString`, `constructor`, ...) look like existing stages to gameling.js and `stage(id, p)` throws at `stage.add`. The model treats every id as an ordinary key and registers a new stage.
- FrameTimer.NewTimer: the target rate is a non-zero integer. Fractional rates, and the `Infinity` interval of a zero rate (which the game's `|| 30` never passes), are not modelled.
- Vectors.Normalize: states only the zero guard and the unit length of the result, with the length supplied by the caller.
- Vector aliasing: the source mutates shared vector objects and returns `this` for chaining. The model returns new values.

## Findings

| source | as written | input that shows it | evidently intended | confidence | as-written member | corrected member |
|---|---|---|---|---|---|---|
| gameling.js:312-313 | `rotate` computes the new `y` from the `x` it has just overwritten | (1, 0) with cos 0, sin 1 (a quarter turn) gives (0, 0) | the new `y` uses the original `x`, giving (0, 1) and keeping the length | high; not executed | Vectors.RotateAsWritten | Vectors.Rotate |
