# Training-tool state machines of the VIZ launcher

The VIZ launcher is a React/Electron desktop app that opens small esports
training tools. Most of its code renders pages and moves windows. Five
components hold small state machines, and this Dafny project models them:

- **AimTrack** (`aim_track.dfy`, class `AimTrack.Session`). The player picks
  one of four scenarios, hits targets in a game area and scores one point
  per hit, against a one-second countdown. The model covers the scenario
  catalog, `startScenario`, the `spawnTargets` loop, `handleTargetClick`
  with its 100 ms respawn timeout, `reset` and the countdown effect.
- **Strafe key card** (`strafe_overlay_component.dfy`, module
  `StrafeOverlayComponent`). Eight flags for W, A, S, D, Space, Ctrl and
  two mouse buttons. Pressing A releases D and pressing D releases A. The
  same source file has `cn`, which joins the non-empty class names with
  spaces; it is module `ClassNames` in the same Dafny file.
- **Strafe overlay page** (`strafe_overlay_page.dfy`). The same eight flags,
  but every flag is independent.
- **Reaction test** (`react_test.dfy`, class `ReactTest.ReactionTest`). It
  moves from idle to waiting, then to the target shown, then to the result.
  It keeps a list of attempts, their average rounded to whole milliseconds,
  and a three-way rating.
- **Splash screen** (`splash_screen.dfy`, class `SplashScreen.Splash`). A
  progress counter goes up by 2 per tick up to 100. The first tick that
  finds it at 100 stops the interval, fades the screen and calls
  `onComplete`.

`wrappers.dfy` holds `Option`, and `random_draw.dfy` holds `IsUnit`, the
range of a `Math.random()` draw. `key_input.dfy` holds what both strafe
overlays share: `toLowerCase`, the six key names and the event type.

Each call to `Math.random()` and `Date.now()` becomes a parameter. A random
draw is a real in [0, 1) and a clock reading is an integer. The AimTrack
spawn loop calls `Date.now()` on every pass, so each pass has its own
reading: an `AimTrack.Draw` carries it with the pass's two random draws.
Each timer
firing is an explicit method call, and calls are handled one at a time, in
order: `AimTrack.Session.Tick`, `AimTrack.Session.FireRespawn`,
`ReactTest.ReactionTest.FireTimeout`, `SplashScreen.Splash.Tick`,
`FireFade` and `FireComplete`. A hit returns a `Respawn` value. It carries
the `isActive` flag and the scenario exactly as the click handler saw them,
because the timeout closure captures them at click time.

The AimTrack game area, which is `gameAreaRef.current`, is modelled by
`AimTrack.MountedArea`. The area is rendered only while a scenario is
selected, so a spawn finds an area only if the last rendered state had a
scenario.

The page has no pause, combo, top-up or leaderboard logic:

- a spawn replaces the whole target list;
- ids are `Date.now() + i`, with the clock read on each pass, so they are
  distinct within one batch only, and only while the clock does not step
  back during the loop;
- a hit adds exactly 1 to the score.

## Model

| member | source | states |
|---|---|---|
| AimTrack.CatalogEntriesAreLive | src/pages/AimTrack.tsx:25-30 | every catalog scenario has a positive duration, at least one target and a positive target size |
| AimTrack.FindIn | src/pages/AimTrack.tsx:33-34 | a scenario that `find` returns is in the list and has the requested id |
| AimTrack.FindInFirstMatch | src/pages/AimTrack.tsx:33-34 | `find` returns nothing exactly when no scenario has the id, and otherwise the first scenario that has it |
| AimTrack.Selected | src/pages/AimTrack.tsx:62-63 | with no scenario selected there is no scenario; a found one is a catalog entry whose id is the selected one |
| AimTrack.Find | src/pages/AimTrack.tsx:62-63 | a found scenario is a catalog entry with the requested id |
| AimTrack.Batch | src/pages/AimTrack.tsx:49-56 | a batch has exactly `count` targets, each of the given size, and the `i`-th id is the clock reading of pass `i` plus `i` |
| AimTrack.BatchIdsDistinct | src/pages/AimTrack.tsx:49-51 | while the clock does not step back during the loop, the ids of a batch are pairwise distinct |
| AimTrack.ClockStepBackRepeatsId | src/pages/AimTrack.tsx:49-51 | clock readings 10 then 9 give both targets of a batch the id 10 |
| AimTrack.MountedArea | src/pages/AimTrack.tsx:130-173 | `gameAreaRef.current` is set exactly when the rendered state has a scenario, and then it is the game area |
| AimTrack.ScaledInside | src/pages/AimTrack.tsx:52-53 | `Math.random() * span` lies in [0, span) for a positive span |
| AimTrack.BatchInsideArea | src/pages/AimTrack.tsx:49-56 | in an area larger than the target size, every spawned target has 0 <= x < width - size and 0 <= y < height - size |
| AimTrack.BuildTargets | src/pages/AimTrack.tsx:47-56 | the `for`/`push` loop builds exactly the batch `Batch` describes |
| AimTrack.Without | src/pages/AimTrack.tsx:66 | removing an id never lengthens the list |
| AimTrack.WithoutAbsent | src/pages/AimTrack.tsx:66 | removing an id that no target has leaves the list unchanged |
| AimTrack.WithoutMembers | src/pages/AimTrack.tsx:66 | after removing an id, a target remains exactly when it was there and has a different id |
| AimTrack.WithoutAppend | src/pages/AimTrack.tsx:66 | removal distributes over concatenation, so the remaining targets keep their order |
| AimTrack.Session.constructor | src/pages/AimTrack.tsx:17-21 | the initial state is no scenario, no targets, score 0, time 0 and not active |
| AimTrack.Session.SpawnTargets | src/pages/AimTrack.tsx:43-59 | without a game area nothing changes; otherwise the whole target list is replaced by the new batch |
| AimTrack.Session.StartScenario | src/pages/AimTrack.tsx:32-41 | an unknown id changes nothing; a catalog id sets the scenario, time left to its duration, score 0 and active; the spawn happens only if an area was already rendered; the session invariant holds |
| AimTrack.Session.StartScenarioAfterMount | src/pages/AimTrack.tsx:36-40 | as `StartScenario`, but spawning into the newly rendered area, so the session starts with exactly `targetCount` targets |
| AimTrack.Session.HandleTargetClick | src/pages/AimTrack.tsx:61-73 | with no scenario, nothing changes and no respawn is scheduled; otherwise the score rises by exactly 1, the clicked id is removed, and a respawn carrying the click-time `isActive` and scenario is returned |
| AimTrack.Session.FireRespawn | src/pages/AimTrack.tsx:68-72 | the batch is replaced only if the captured flag was true and an area is rendered; otherwise the targets are unchanged |
| AimTrack.Session.FireRespawnChecked | src/pages/AimTrack.tsx:68-72 | the respawn that reads the current `isActive`: an ended session keeps its empty target list |
| AimTrack.Session.Reset | src/pages/AimTrack.tsx:75-81 | from any state, the result is no scenario, no targets, score 0, time 0 and not active |
| AimTrack.ResetTwice | src/pages/AimTrack.tsx:75-81 | a second reset leaves the same state as the first (idempotence) |
| AimTrack.Session.Tick | src/pages/AimTrack.tsx:83-97 | while active, time drops by exactly 1 and never below 0; at 0 the session stops and its targets are cleared; score and scenario are untouched; an inactive session is unchanged |
| AimTrack.StartFromMenu | src/pages/AimTrack.tsx:40-44 | as written, starting any scenario from the menu gives an active session with no targets |
| AimTrack.PlayOneHit | src/pages/AimTrack.tsx:61-72 | with the corrected start, one hit and its respawn leave score 1 and a full batch of `targetCount` targets |
| AimTrack.RespawnAfterTimeUp | src/pages/AimTrack.tsx:68-72 | as written, a hit in the last second followed by the countdown ending and then the respawn leaves a full batch on an ended session |
| AimTrack.RespawnAfterTimeUpChecked | src/pages/AimTrack.tsx:68-72 | with the corrected respawn, the same events leave the ended session without targets |
| KeyInput.LowerChar | src/components/StrafeOverlay.tsx:23 | only 'A'..'Z' change, each to its lower-case letter |
| KeyInput.Lower | src/components/StrafeOverlay.tsx:23 | lower-casing keeps the length of the key string and lower-cases each character in place |
| KeyInput.RecognizeKeyValue | src/components/StrafeOverlay.tsx:28-41 | each of the six keys' own `e.key` value is recognised as that key |
| KeyInput.RecognizedIsKeyValue | src/components/StrafeOverlay.tsx:28-41 | a value is recognised as a key only when it is exactly that key's value |
| KeyInput.LowerIdempotent | src/pages/StrafeOverlay.tsx:18 | lower-casing twice is the same as lower-casing once |
| StrafeOverlayComponent.PressStrafeKey | src/components/StrafeOverlay.tsx:33-41 | "a" presses A and releases D, "d" presses D and releases A, and every other flag stays as it was |
| StrafeOverlayComponent.PressOtherKey | src/components/StrafeOverlay.tsx:28-31 | "w", "s", " " and "control" each set only their own flag |
| StrafeOverlayComponent.UnknownKeyChangesNothing | src/components/StrafeOverlay.tsx:25-58 | a key that names no flag leaves the state unchanged on keydown and on keyup |
| StrafeOverlayComponent.PressKeepsMouseAndExclusion | src/components/StrafeOverlay.tsx:25-44 | a keydown never changes a mouse flag and never leaves A and D both pressed |
| StrafeOverlayComponent.HandleKeyDown | src/components/StrafeOverlay.tsx:22-45 | the keydown handler lower-cases the key and gives the state `Press` describes |
| StrafeOverlayComponent.OverwriteKeys | src/components/StrafeOverlay.tsx:25-44 | the copy-then-overwrite sequence of writes gives the keydown state `Press` defines, whose meaning the four lemmas above state |
| StrafeOverlayComponent.ReleaseClearsOnlyThatKey | src/components/StrafeOverlay.tsx:47-59 | keyup clears the released key's flag and leaves every other flag, mouse flags included, unchanged |
| StrafeOverlayComponent.HandleKeyUp | src/components/StrafeOverlay.tsx:47-59 | the keyup handler lower-cases the key; a recognised key clears exactly its own flag, with no exclusion, and an unknown key changes nothing |
| StrafeOverlayComponent.HandleMouseDown | src/components/StrafeOverlay.tsx:61-67 | button 0 sets `mouse1`, button 2 sets `mouse2`, any other button changes nothing |
| StrafeOverlayComponent.HandleMouseUp | src/components/StrafeOverlay.tsx:69-75 | button 0 clears `mouse1`, button 2 clears `mouse2`, any other button changes nothing |
| StrafeOverlayComponent.StepKeepsExclusive | src/components/StrafeOverlay.tsx:33-41 | no single event leaves A and D both pressed |
| StrafeOverlayComponent.RunKeepsExclusive | src/components/StrafeOverlay.tsx:33-41 | A and D are never both pressed after any sequence of events from an exclusive state |
| StrafeOverlayComponent.ReachableIsExclusive | src/components/StrafeOverlay.tsx:8-41 | from the all-false initial state, every reachable state has A and D exclusive |
| StrafeOverlayComponent.CaseInsensitive | src/components/StrafeOverlay.tsx:23 | a key and its lower-cased spelling ("W" and "w") have the same effect on keydown and on keyup |
| ClassNames.NonEmpty | src/components/StrafeOverlay.tsx:149 | `filter(Boolean)` keeps no empty string, contains a string exactly when it is a non-empty input, and is empty exactly when every input is empty |
| ClassNames.NonEmptyAppend | src/components/StrafeOverlay.tsx:149 | filtering a concatenation gives the filtered halves concatenated, so the filter keeps the inputs' order and multiplicity |
| ClassNames.Join | src/components/StrafeOverlay.tsx:149 | a non-empty join has the parts' total length plus one separator between each pair of neighbours, and starts with the first part |
| ClassNames.Cn | src/components/StrafeOverlay.tsx:148-150 | `cn` gives the empty string exactly when every input is empty |
| ClassNames.CnCons | src/components/StrafeOverlay.tsx:148-150 | for all inputs: an empty first input is dropped, a non-empty one is followed by a space and the rest exactly when the rest gives a non-empty result |
| ClassNames.CardClassName | src/components/StrafeOverlay.tsx:92-97 | the card's class name is the fixed classes, one space, then the background classes of the transparency toggle |
| ClassNames.JoinOfNonEmpty | src/components/StrafeOverlay.tsx:149 | joining non-empty parts gives "" exactly when there are no parts |
| ClassNames.SplitJoin | src/components/StrafeOverlay.tsx:149 | joining parts that do not contain the separator and splitting the result on it gives back the parts |
| ClassNames.CnSplitsBack | src/components/StrafeOverlay.tsx:148-150 | when no class name contains a space, splitting `cn`'s result on spaces gives back the non-empty inputs, in order |
| StrafeOverlayPage.SetByValueIsSet | src/pages/StrafeOverlay.tsx:19-23 | writing the flag named by a key value writes the flag of the recognised key, and an unrecognised value writes nothing |
| StrafeOverlayPage.HandleKeyDown | src/pages/StrafeOverlay.tsx:17-24 | a recognised key sets exactly its own flag, with no exclusion; an unknown key changes nothing |
| StrafeOverlayPage.HandleKeyUp | src/pages/StrafeOverlay.tsx:26-33 | a recognised key clears exactly its own flag; an unknown key changes nothing |
| StrafeOverlayPage.HandleMouseDown | src/pages/StrafeOverlay.tsx:35-38 | button 0 sets `leftMouse`, button 2 sets `rightMouse`, any other button changes nothing |
| StrafeOverlayPage.HandleMouseUp | src/pages/StrafeOverlay.tsx:40-43 | button 0 clears `leftMouse`, button 2 clears `rightMouse`, any other button changes nothing |
| StrafeOverlayPage.SetTwice | src/pages/StrafeOverlay.tsx:17-33 | a second write of the same flag overrides the first |
| StrafeOverlayPage.PressThenRelease | src/pages/StrafeOverlay.tsx:17-33 | keydown then keyup of the same key leaves that flag false and every other flag as before |
| StrafeOverlayPage.StrafeKeysAreIndependent | src/pages/StrafeOverlay.tsx:19-21 | from the initial state, "a" then "D" leaves A and D both pressed |
| StrafeOverlayPage.KeyEventsKeepMouse | src/pages/StrafeOverlay.tsx:17-33 | no sequence of key events changes a mouse flag |
| ReactTest.Delay | src/pages/ReactTest.tsx:23 | the wait before the target lies in [2000, 5000) ms |
| ReactTest.Sum | src/pages/ReactTest.tsx:49 | the `reduce` total of non-negative reaction times is non-negative |
| ReactTest.SumAppend | src/pages/ReactTest.tsx:49 | the `reduce` total of a concatenation is the sum of the totals of its halves |
| ReactTest.RoundedQuotient | src/pages/ReactTest.tsx:49 | `Math.round(n / d)` is within half of n / d, and an exact half rounds up |
| ReactTest.RoundedQuotientUnique | src/pages/ReactTest.tsx:49 | only one integer satisfies that bound |
| ReactTest.Average | src/pages/ReactTest.tsx:48-50 | there is no average exactly when there are no attempts; otherwise it is sum / length rounded to the nearest integer, halves up |
| ReactTest.SumBounds | src/pages/ReactTest.tsx:49 | the `reduce` sum of attempts in [lo, hi] lies between length * lo and length * hi |
| ReactTest.AverageWithinRange | src/pages/ReactTest.tsx:48-50 | the average of attempts in [lo, hi] lies in [lo, hi] |
| ReactTest.Rate | src/pages/ReactTest.tsx:131 | "Incredible!" exactly below 200 ms, "Great!" exactly from 200 to below 300 ms, "Good!" exactly from 300 ms |
| ReactTest.Label | src/pages/ReactTest.tsx:131 | each verdict has its own text: "Incredible!", "Great!" or "Good!", and each text names exactly one verdict |
| ReactTest.RateMonotone | src/pages/ReactTest.tsx:131 | a faster time is never rated lower than a slower one |
| ReactTest.ReactionTest.constructor | src/pages/ReactTest.tsx:10-15 | the initial state is no age, nothing started or shown, no result and no attempts |
| ReactTest.ReactionTest.CurrentPhase | src/pages/ReactTest.tsx:72-127 | the age form shows exactly when not started and no result; the wait panel exactly when started without the target; the target exactly when started with it; the result card exactly when not started with a result |
| ReactTest.ReactionTest.SetAge | src/pages/ReactTest.tsx:79 | the age input replaces the age |
| ReactTest.ReactionTest.StartTest | src/pages/ReactTest.tsx:17-28 | with an empty age, nothing changes and no timeout is armed; otherwise it has started, shows no result and no target, and a timeout in [2000, 5000) ms is armed |
| ReactTest.ReactionTest.FireTimeout | src/pages/ReactTest.tsx:24-27 | the target is shown and `startTime` is the current time; waiting moves to target shown |
| ReactTest.ReactionTest.HandleClick | src/pages/ReactTest.tsx:30-38 | before the target is shown, nothing changes; afterwards the reaction time is now - startTime and is appended to the attempts, the length rises by 1, earlier entries stay, and the result panel shows |
| ReactTest.ReactionTest.Reset | src/pages/ReactTest.tsx:40-46 | age and attempts are cleared, nothing is started or shown, there is no result and no average |
| ReactTest.OneRound | src/pages/ReactTest.tsx:17-38 | start, timeout at t0 and click at t1 record t1 - t0 as the newest attempt and the result |
| SplashScreen.Advance | src/components/SplashScreen.tsx:14-24 | below 100 a tick adds exactly 2; at 100 or more it returns 100; an even value in [0, 100] stays even, within [0, 100], and never decreases |
| SplashScreen.ProgressAfterIs | src/components/SplashScreen.tsx:14-24 | after n ticks the progress is 2n, capped at 100 |
| SplashScreen.ProgressNeverDecreases | src/components/SplashScreen.tsx:14-24 | progress after more ticks is never lower |
| SplashScreen.CompletesOnTick51 | src/components/SplashScreen.tsx:15-23 | the tick after k earlier ticks sees a full bar exactly when k >= 50, so tick 51 is the first to complete |
| SplashScreen.Splash.constructor | src/components/SplashScreen.tsx:9-13 | mounting gives progress 0, no fade, the interval set and nothing armed |
| SplashScreen.Splash.Tick | src/components/SplashScreen.tsx:13-25 | a tick applies `Advance`; the tick that sees 100 clears the interval and arms the fade; progress stays even, within [0, 100], and never decreases |
| SplashScreen.Splash.FireFade | src/components/SplashScreen.tsx:17-20 | the fade timeout sets `fadeOut` and arms the completion timeout |
| SplashScreen.Splash.FireComplete | src/components/SplashScreen.tsx:19 | the completion timeout calls `onComplete`, and it is called exactly once |
| SplashScreen.RunToCompletion | src/components/SplashScreen.tsx:12-25 | from mounting, the interval runs exactly 51 ticks, ends at 100 and cleared, and `onComplete` is called once |

## Left out

- Rendering, routing, toasts, the `Back to Dashboard` navigation and the
  transparency toggle of the strafe card: they only draw the state modelled here.
- The AimTrack sensitivity slider: a float that only scales the CSS.
- Randomness and the clock: each `Math.random()` result is a real draw in
  [0, 1), and each `Date.now()` reading, one per call, is an integer
  parameter.
- Real timer scheduling, `clearInterval` on unmount, an effect re-running
  when `onComplete` changes identity, and React StrictMode calling updaters
  twice: each timer firing is one explicit, serialised event.
- Floating point: target coordinates are exact reals.
- ReactTest.Delay and ReactTest.ReactionTest.StartTest: the delay is
  computed in exact reals, where it lies in [2000, 5000). In IEEE doubles
  the largest draws (1 - 2^-52 and 1 - 2^-53) round to exactly 5000 ms, so
  the program's delay lies in [2000, 5000].
- ReactTest.Average: the mean is computed exactly and then rounded. IEEE
  division followed by `Math.round` gives the same integer only while the
  sum of attempts stays below 2^52 in magnitude. Above that, the division
  can round a quotient up to the next half: a sum of 6755399441055745 over
  3 attempts divides to 2251799813685248.5, which rounds up, while the exact
  mean ends in .33 and rounds down.
- KeyInput.Lower: lower-cases only 'A'..'Z'. No non-ASCII key
  lower-cases to one of the recognised names, so recognition is unaffected.
- ClassNames.Cn: models string inputs only, with "" as the one
  falsy value. The card passes only strings.
- AimTrack.BatchInsideArea: bounds targets only in an area larger than the
  target. In a smaller area the source gives coordinates between
  width - size and 0, which the model computes but no lemma states.
- AimTrack.Session.SpawnTargets: `count` is a `nat`. The source only passes
  catalog counts, which are positive.
- AimTrack.Session.HandleTargetClick: does not require the clicked id to be
  on screen. The source checks only that a scenario is selected, and so
  does the model.
- ReactTest.ReactionTest.FireTimeout: the source never cancels the timeout,
  so the model lets it fire in any state.
- SplashScreen.Splash.FireFade and SplashScreen.Splash.FireComplete: require
  their timeout to be armed. A timeout that was never set cannot fire.

## Findings

| source | as written | input that shows it | evidently intended | confidence | as-written member | corrected member |
|---|---|---|---|---|---|---|
| src/pages/AimTrack.tsx:40-44 | `startScenario` calls `spawnTargets` in the click handler, before React has rendered the game area (the area is rendered only once `scenario` is set, line 173), so `gameAreaRef.current` is null and the spawn returns | choose "Grid Shot" from the menu: the session is active for 60 s with no target at all | the scenario starts with its `targetCount` targets | high, not executed | AimTrack.StartFromMenu | AimTrack.Session.StartScenarioAfterMount |
| src/pages/AimTrack.tsx:68-72 | the 100 ms respawn reads `isActive` as captured at click time | once targets appear, a hit less than 100 ms before the countdown reaches 0: its respawn fires after the session ended and puts a full batch on the ended session, and hits on it still score (line 62 checks only that a scenario is selected) | no respawn once the session has ended | medium, not executed (reachable only once the finding above is fixed) | AimTrack.RespawnAfterTimeUp | AimTrack.Session.FireRespawnChecked |
