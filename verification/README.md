# BrainScreen game core in Dafny

BrainScreen is a "heads-up" party game that runs in the browser. The player holds
the phone to their forehead. A word is shown full-screen. Tilting the phone
forward or back marks the word skipped or correct, and a 16-second timer ends the
round with a results screen. All of it lives in `root/js/main.js`. This project
models the sequential logic under that file's DOM, audio and timer plumbing:

- `shuffle.dfy`, module `Shuffle`: the Fisher–Yates `shuffle`. The results of
  `Math.random()` are passed in as a sequence of draws in [0, 1).
- `fit_text.dfy`, module `FitText`: the binary search of `fitText` over font
  sizes 1..500. The DOM measurement is replaced by a function `measure` from font
  size to rendered extent.
- `tilt.dfy`, module `Tilt`: `handleMotion` and the cooldown half of
  `triggerAction`. A z-acceleration sample becomes Skip, Correct or nothing. The
  1000 ms cooldown is a flag plus the time at which its single-shot timer fires.
- `game_session.dfy`, module `GameSession`: the `gameState` record, `nextWord`,
  the 1 Hz timer tick, `endGame` and the list that `showResults` builds.
- `app.dfy`, modules `App`, `AppProperties` and `Scenarios`: the whole program as
  a transition system. It covers the menu, the four-step countdown, the word load,
  the game, the results and the menu button. Each browser callback is one `Event`
  and emits `Effect`s (screens shown, sounds played, the fetch). Any sequence of
  events is allowed, so every interleaving of the timers and the sensor is covered.
  Game ticks are whole seconds and motion samples carry integer milliseconds.

Source behaviours the model keeps as written:

- `nextWord` has no bounds check, and `handleMotion` only checks `gameState` and
  the cooldown. After the last word a tilt still records `words[words.length]`,
  which is `undefined`, and moves `wordIndex` past the end. Answers are therefore
  `Option<string>`, with `None` for `undefined`. The tally invariant
  `|correct| + |skipped| == wordIndex` still holds. An index within the word list
  does not (`GameSession.NextWordPastEnd`).
- Running out of words does not end the game. The timer runs on until it expires.
- `endGame` tests `if (current)`. So neither an index past the end nor an empty
  word is counted as skipped (`GameSession.EndGameSkipsOnlyRealWords`).
- The comment in `handleMotion` calls a positive z spike a forward nod, meaning
  "correct". The code sends `z > 4` to skip and `z < -4` to correct. The model
  follows the code.
- The cooldown flag is global. Nothing resets it at the end of a game or on the
  menu, so in the model it lives in `App` and is carried across phases.
- A tilt and the last tick are ordered like any other two events. Once the tick
  has ended the game, the motion listener is detached and nothing else counts
  (`AppProperties.EndedIsFinal`).

## Model

| member | source | states |
|---|---|---|
| `Shuffle.RandomIndex` | root/js/main.js:16 | For any draw in [0, 1), `Math.floor(Math.random() * (i + 1))` is a swap partner in [0, i]. |
| `Shuffle.RandomIndexReaches` | root/js/main.js:16 | Every partner j in [0, i] is picked by some draw, namely j/(i+1). |
| `Shuffle.Swap` | root/js/main.js:17 | The destructuring swap exchanges the two entries, leaves every other entry alone and keeps the multiset. |
| `Shuffle.ShuffleFrom` | root/js/main.js:15-18 | The loop from i = top-1 down to 1 keeps the length and the multiset, and never changes positions at or above `top`. |
| `Shuffle.Shuffle` | root/js/main.js:13-20 | The result is a permutation of the input with the same length. An input of length 0 or 1 comes back unchanged. |
| `Shuffle.ReachFrom` | root/js/main.js:15-18 | The loop can be steered by draws to any target that agrees above `top` and permutes the rest. |
| `Shuffle.EveryPermutationReachable` | root/js/main.js:13-20 | Every permutation of the input is the output for some sequence of draws. |
| `FitText.LargestFitUpTo` | root/js/main.js:22-35 | Reference definition: the largest size in [1, hi] whose extent fits both bounds, or 1 when none fits. |
| `FitText.MonotoneFitsBelow` | root/js/main.js:28 | If the extent never shrinks as the font grows, then every smaller size fits whenever a size fits. |
| `FitText.LocalMaximumIsLargest` | root/js/main.js:25-33 | Under monotone measurement, a size that fits (or is 1) while the next size overflows is the largest fitting size. |
| `FitText.LargestFitGrowsWithBox` | root/js/main.js:22-35 | Widening either bound never lowers the largest fitting size. |
| `FitText.FitText` | root/js/main.js:22-35 | The search stops within 9 probes and applies a size in [1, 500]. That size fits or is 1, and the next size overflows or it is 500. Under monotone measurement it is exactly the largest fitting size. |
| `Tilt.AxisZ` | root/js/main.js:44-47 | A missing acceleration or z value reads as 0, and a present z reads as itself. |
| `Tilt.Classify` | root/js/main.js:55-59 | z > 4 gives Skip, z < -4 gives Correct, and -4 <= z <= 4 gives nothing. Each holds in both directions. |
| `Tilt.ClassifyMirror` | root/js/main.js:55-59 | Negating the spike swaps Skip and Correct and keeps "nothing". |
| `Tilt.Settle` | root/js/main.js:73-75 | The flag as seen at a given time: the timer clears it exactly when its release time has passed. |
| `Tilt.HandleMotion` | root/js/main.js:43-75 | A sample yields an action iff a game is present, the cooldown is not active and the spike exceeds the threshold. The action matches the spike's sign. An accepted action sets the cooldown until now + 1000 ms. Otherwise the cooldown only settles. |
| `Tilt.CooldownBlocksUntilRelease` | root/js/main.js:50 | While the cooldown is active, a sample changes nothing and yields nothing. |
| `Tilt.MissingAccelerationIgnored` | root/js/main.js:44-47 | A sample without acceleration data never yields an action. |
| `Tilt.TwoSpikes` | root/js/main.js:62-75 | Once a spike is accepted, a later second spike less than 1000 ms after it yields nothing. A spike 1000 ms or more later is classified afresh. |
| `GameSession.WordAt` | root/js/main.js:108 | Reading the word list gives the word within bounds and `undefined` past the end. |
| `GameSession.Start` | root/js/main.js:168-178 | A new record holds a permutation of the loaded words, index 0, empty lists, 16 seconds and no ticking cue yet. |
| `GameSession.NextWord` | root/js/main.js:107-115 | The word on screen goes to exactly one of the two lists and the index grows by one. Nothing else changes, so the tally invariant is kept. |
| `GameSession.NextWordPastEnd` | root/js/main.js:107-116 | Past the last word a tilt still records `undefined` and pushes the index further past the end. |
| `GameSession.PositionsPartition` | root/js/main.js:109-113 | Each verdict position is counted once, as correct or as skipped. |
| `GameSession.JudgeHistory` | root/js/main.js:107-115 | After any run of verdicts from a fresh record, the index equals the number of verdicts. The correct list is the words at the positions judged correct and the skipped list the words at the others, each in order. |
| `GameSession.Tick` | root/js/main.js:184-196 | Each tick lowers the time by exactly 1. The ticking cue plays exactly when 15 is reached and it has not played yet. The game expires iff the time is at or below 0. The answers are untouched. |
| `GameSession.TickingCueAtMostOnce` | root/js/main.js:188-191 | Over any number of ticks the ticking cue plays at most once, and never again once it has played. |
| `GameSession.TickingCueOnFirstTick` | root/js/main.js:184-191 | From a fresh record the cue plays on the first tick (16 to 15), which does not end the game. |
| `GameSession.EndGame` | root/js/main.js:146-153 | The word on screen is added to the skipped list only when it exists and is non-empty. The correct list is unchanged. |
| `GameSession.EndGameSkipsOnlyRealWords` | root/js/main.js:150-153 | With no word left, or an empty word, ending the game changes no list. |
| `GameSession.Results` | root/js/main.js:121-133 | The summary counts are the two list lengths. The list shows the correct words first, then the skipped words. |
| `GameSession.ResultsRoundTrip` | root/js/main.js:130-133 | Splitting the list at the correct count gives back the correct list and the skipped list, each in order. |
| `App.StartCountdown` | root/js/main.js:199-215 | A category click opens the countdown for that category at label "3": the countdown screen, that label and one countdown sound. The tilt cooldown is untouched. |
| `App.CountdownInterval` | root/js/main.js:217-226 | The countdown stays on iff a label is left. Then it shows the next label with a sound. After "Go!" it moves to loading and requests exactly that category's words. The cooldown is untouched. |
| `App.StartGame` | root/js/main.js:158-182 | Loaded words start a game on a permutation of them, at index 0, with empty lists, 16 seconds and no ticking cue. The effects are the game screen, the timer at 16 and the first word, which exists iff the list is non-empty. |
| `App.GameInterval` | root/js/main.js:184-196 | The clock display shows one second less. The ticking cue plays iff 15 is reached for the first time. The game ends iff at most one second was left, and then the game-over sound, the results and the results screen follow. Otherwise only the clock and the cue flag change. `AppProperties.GameIntervalEffects` pins the effect list exactly, and `AppProperties.GameIntervalEndsGame` adds that on expiry the words and index are kept and only a truthy word on screen joins the skipped list. |
| `App.MotionSample` | root/js/main.js:43-119 | The game record changes iff the cooldown is not active and the spike passes the threshold. A correct tilt appends the word on screen to the correct list with the correct sound, a skip appends it to the skipped list with the skip sound. An accepted tilt moves the index by one and sets the cooldown. The next word is shown iff one is left. A rejected sample emits nothing and only settles the cooldown. `AppProperties.MotionSampleEffects` bounds the effects to the sound and at most one word display, and `AppProperties.MotionSampleFrame` adds that the words, the clock and the cue flag are never touched. |
| `App.BackToMenu` | root/js/main.js:238-241 | The menu button drops the game and shows the menu. The tilt cooldown is kept, since nothing resets it. |
| `AppProperties.GameIntervalEffects` | root/js/main.js:184-196 | A game tick emits exactly the clock display, then the ticking cue only on the first reach of 15, then the game-over sound, the results and the results screen only on expiry. |
| `AppProperties.MotionSampleEffects` | root/js/main.js:62-119 | A tilt emits at most two effects: first the correct or skip sound, then the next word only if one is left. A rejected sample emits nothing. |
| `AppProperties.MotionSampleFrame` | root/js/main.js:62-119 | An accepted or rejected tilt never changes the word list, the clock or the ticking-cue flag. |
| `AppProperties.GameIntervalEndsGame` | root/js/main.js:146-153 | The expiring tick ends the game. The words, the index and the correct list are kept, and only a truthy word on screen joins the skipped list. |
| `AppProperties.StepFollowsCycle` | root/js/main.js:158-241 | The contract of the dispatcher `App.Step`, which routes each event to one of the callbacks above. An event with no listener in the current phase changes nothing. The phase stays or moves one place along menu, countdown, loading, game, results. Every screen switch shows the screen of the phase reached. Only motion touches the cooldown. |
| `AppProperties.StepPreservesInv` | root/js/main.js:168-196 | One callback keeps the invariant. During the game this means the tally, 1 <= time <= 16, and "cue played iff time <= 15". At the results, the lists count the index plus the final word if it was truthy, the time is 0 and the cue has played. |
| `AppProperties.ReachableInv` | root/js/main.js:168-196 | The start state (menu, cooldown clear) satisfies the invariant, and so does every state reached from it by any sequence of callbacks. |
| `AppProperties.RunPreservesInv` | root/js/main.js:168-196 | From any state that satisfies the invariant, every sequence of callbacks keeps it. |
| `AppProperties.CountdownTickStep` | root/js/main.js:217-226 | An interval tick shows the next label with a sound. After the last label it clears the interval and starts the fetch. |
| `AppProperties.CountdownTicksPhase` | root/js/main.js:217-226 | After k interval ticks the countdown shows label k. From the fourth tick on, the game is loading. |
| `AppProperties.CountdownFetchesOnce` | root/js/main.js:217-226 | `startGame` (the fetch) runs exactly once, on the fourth interval tick, however many ticks follow. |
| `AppProperties.CountdownSounds` | root/js/main.js:214-221 | The countdown sound plays once for each label after the first. |
| `AppProperties.LoadingIgnoresTicks` | root/js/main.js:222-224 | Once the interval is cleared, further countdown ticks do nothing. |
| `AppProperties.CountdownIgnoresOtherEvents` | root/js/main.js:199-227 | During the countdown, tilts, game ticks, loads and clicks are ignored. |
| `AppProperties.PlayingUntilTimeRunsOut` | root/js/main.js:184-196 | With fewer game ticks than seconds left, the game is still on and its clock is down by exactly the number of ticks, whatever tilts came in between. Without tilts the answers are untouched. |
| `AppProperties.TimeRunsOut` | root/js/main.js:184-196 | With no tilts, a game with T seconds left ends on the T-th tick. Only the word on screen is added, to the skipped list, and only if it is truthy. |
| `AppProperties.LastTickEnds` | root/js/main.js:146-153 | The tick that finds one second left ends the game. The index and the correct list are kept, and only a truthy word on screen joins the skipped list. |
| `AppProperties.EndsOnLastTick` | root/js/main.js:193-195 | The tick that uses up the last second ends the game. |
| `AppProperties.GameLastsDuration` | root/js/main.js:168-196 | After the load, the game is on through 15 game ticks and has ended after the 16th, whatever tilts arrive. |
| `AppProperties.TwoSpikesOneAdvance` | root/js/main.js:62-75 | During a game, if the first of two spikes less than 1000 ms apart is accepted, the word advances once. |
| `AppProperties.EndedIsFinal` | root/js/main.js:146-148 | After the game ends, every event except the menu button changes nothing and emits nothing. |
| `AppProperties.MenuClearsGame` | root/js/main.js:238-241 | The menu button on the results screen drops the game record and shows the menu. |
| `AppProperties.MenuForgetsGame` | root/js/main.js:238-241 | Nothing of a finished game except the cooldown survives the menu: two results screens with the same cooldown lead through the menu and a category click to the same countdown and the same effects. |
| `Scenarios.CatDogFoxDeck` | root/js/main.js:13-20 | Draws 0.9, 0.9 leave cat, dog, fox in order. |
| `Scenarios.CatDogFoxOpening` | root/js/main.js:168-181 | After the load and a -5 m/s² spike, "cat" is correct and "dog" is on screen. |
| `Scenarios.CatDogFox` | root/js/main.js:107-153 | The clock then runs out on "dog": one correct word (cat), one skipped (dog), and fox is never reached. |
| `Scenarios.SpikeCooldown` | root/js/main.js:50-75 | A -5 spike at 0 ms registers as correct. The same spike at 200 ms is ignored, and at 1100 ms it registers again. |

## Left out

- DOM rendering is left out: `screens.show`, `.text`, `.css`, HTML escaping in the results list and the countdown label colours. Screens and texts are reduced to `Effect` values.
- `showWord` calls `fitText` with the container width times 0.9. The container size is read from the DOM, so that call is left out. `FitText.FitText` models the search for any bounds.
- FitText.FitText: the measurement is a pure function of the font size. In the browser it is a DOM read after a style write.
- Monotonicity of the rendered extent is an assumption (`FitText.Monotone`). Text layout does not guarantee it, so only the optimality clause depends on it.
- Audio playback is reduced to `Play…` effects.
- The `fetch` and JSON decoding are left out. The loaded words arrive as the `WordsLoaded` event and are assumed to be strings. A failed fetch has no handler in the source and the game stays on the countdown screen. The model shows this as no `WordsLoaded` event ever arriving.
- Attaching and removing the `devicemotion` listener is modelled only through which events have a listener in each phase (`App.Listens`). `requestMotionPermission` and its error path are browser APIs and are left out.
- Clicks reach only the visible screen. The category and menu-button handlers stay bound for good (`root/js/main.js` lines 232 and 238). A second category click while `await requestMotionPermission()` is pending would start a second countdown, a second `startGame` and a second game interval on the same `gameState`. That race is not modelled.
- `Math.random` is replaced by the draws parameter. Probabilities, and so the uniformity of the shuffle, are not modelled. Reachability of every permutation is proved instead.
- Timer scheduling is not modelled. The cooldown timer fires exactly 1000 ms after the accepted sample, before any sample with the same timestamp. The browser may fire it later. Game ticks, countdown ticks and samples are separate events with no shared clock.
- Floating point is not modelled. Acceleration and the fit bounds are `real`.
- Tilt.AxisZ: the x and y components are only shown in the debug line, so they are left out, and so are the `toFixed` formatting and `APP_VERSION`.
- The summary line is modelled as its two counts, not as the formatted string.

