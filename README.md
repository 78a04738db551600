# Crash-game engine of the trade simulator

This project models the crash game in `components/TradeSimulatorModal.tsx`, the only algorithmic part of the satirical profile page. It covers five pieces:

- **Crash-point draw.** `generateCrashPoint` takes a 32-bit draw `h` and computes `floor((100·2^32 − h)/(2^32 − h))/100`, floored at 1.10x. The model keeps this value exactly, in hundredths (module `Odds`).
- **Round rules.** These are pure: bet validation, the quick-bet buttons, the LAUNCH gate, the cash-out payout, the decision one animation frame makes (clamp, milestone, celebration, crash) and the crash history. The history is most-recent-first and capped at 8 (module `Rules`).
- **The engine.** The component's hook state and refs become the fields of a `CrashGame` object (module `Engine`). Its handlers become methods:
  - `StartGame` is `startGame`;
  - `Tick` is one `updateGame` frame;
  - `PlayFrames` is the self-rescheduling frame loop;
  - `Crash` is `handleCrash`;
  - `TriggerCelebration` and `CelebrationExpire` are `triggerCelebration` and its 800 ms timeout;
  - `CashOut` is `cashOut`;
  - `CoolDown` is the 3 s reset.

  Browser scheduling becomes explicit events, and the entropy draw and the growth sample become parameters. `Valid()` is the object invariant:
  - the balance is never negative;
  - the history holds at most 8 values, each at least 1.10;
  - the frame loop runs exactly while the round is RUNNING;
  - a running round is below its crash point;
  - a crashed round shows exactly its crash point, with no celebration and its own reset pending;
  - the player is IDLE exactly when the round is IDLE;
  - a celebration always has its timeout armed.
- **Sessions** (module `Scenarios`). These drive the methods through whole rounds: cash-out, a refused bet, a loss, milestone re-triggering, and the two findings below.

Three points about the code that the model follows as written:

- **Crash formula.** The numerator at line 41 subtracts `h` once from `100·e`; it does not subtract `100·h`, which would give 1.00x for every draw.
- **Launch while CRASHED.** `startGame` does not check the round state. Its LAUNCH button (lines 382 and 385) is enabled while CRASHED for a player who is not IN_GAME. `StartGame` requires exactly that gate (`LaunchEnabled`), so a new round can start during the cool-down.
- **Player reset.** The cool-down (lines 117-121) resets the player to IDLE whether or not the player cashed out.

## Model

| member | source | states |
|---|---|---|
| `Odds.Raw100` | components/TradeSimulatorModal.tsx:39-41 | the unclamped value in hundredths is 100 + floor(99h/(2^32−h)), so it is never below 1.00x |
| `Odds.CrashPointCents` | components/TradeSimulatorModal.tsx:41-45 | the clamped value is at least 110, at least the unclamped value, and equal to one of the two (the `Math.max`) |
| `Odds.CrashPoint` | components/TradeSimulatorModal.tsx:37-46 | every drawn crash point is at least 1.10x and is a whole number of hundredths |
| `Odds.Raw100AtLeast` | components/TradeSimulatorModal.tsx:39-41 | the unclamped value reaches c hundredths exactly when h·(c−1) ≥ (c−100)·2^32 (both directions) |
| `Odds.Raw100Monotone` | components/TradeSimulatorModal.tsx:39-41 | a larger draw never gives a smaller unclamped value |
| `Odds.CrashPointMonotone` | components/TradeSimulatorModal.tsx:37-46 | a larger draw never gives a smaller crash point |
| `Odds.CrashPointAtLeast` | components/TradeSimulatorModal.tsx:39-45 | a crash point of at least c hundredths comes from exactly the draws from TailStart(c) up (about 99/(c−1) of them); up to 1.10x it comes from every draw |
| `Odds.CrashPointSamples` | components/TradeSimulatorModal.tsx:39-45 | draw 0 gives 1.10x, draw 2^31 gives 1.99x, and 2136692272 of the 2^32 draws reach 2.00x |
| `Rules.QuickBetAmount` | components/TradeSimulatorModal.tsx:372 | 'Max' puts the whole balance in the bet input; every other button puts a fixed amount, one of 100, 500 and 1000 |
| `Rules.CheckBet` | components/TradeSimulatorModal.tsx:49-51 | a bet is accepted iff it is a number with 0 < bet ≤ balance; NaN or a bet ≤ 0 is "invalid" and is checked first; a positive bet above the balance is "insufficient funds"; an accepted bet leaves the balance non-negative |
| `Rules.QuickBetAccepted` | components/TradeSimulatorModal.tsx:369-372 | 'Max' stakes the whole balance and is accepted iff the balance is positive; '100', '500' and '1k' stake exactly 100, 500 and 1000, each accepted iff the balance covers it and refused as insufficient funds otherwise |
| `Rules.LaunchEnabled` | components/TradeSimulatorModal.tsx:382-385 | LAUNCH is enabled exactly when the round is CRASHED and the player is not IN_GAME, or the round is IDLE and the player is IDLE or CASHED_OUT |
| `Rules.LaunchNeverInRound` | components/TradeSimulatorModal.tsx:382-385 | LAUNCH is never enabled for a player IN_GAME or during a running round |
| `Rules.CanCashOut` | components/TradeSimulatorModal.tsx:125 | cash-out is allowed only for a player IN_GAME in a RUNNING round, and never in a state where LAUNCH is enabled |
| `Rules.Payout` | components/TradeSimulatorModal.tsx:127 | the credit is bet × multiplier: at least the bet when the multiplier is at least 1, more when it is above 1; the profit is bet·(multiplier − 1) |
| `Rules.ClampMultiplier` | components/TradeSimulatorModal.tsx:75 | the multiplier shown is at least 1.00 and at least the sample, and it is one of the two |
| `Rules.Frame` | components/TradeSimulatorModal.tsx:75-94 | one frame shows max(1.00, sample); the milestone never decreases and becomes floor(multiplier) only when that is higher; a celebration starts iff the milestone was newly raised into {2,5,10,20,50,100}; the frame crashes iff the multiplier is ≥ the crash point |
| `Rules.NextMilestone` | components/TradeSimulatorModal.tsx:80-82 | the new milestone is the larger of the last milestone and the multiplier's integer part |
| `Rules.RunThenFrame` | components/TradeSimulatorModal.tsx:80-87 | one more frame after a run advances the milestone from the run's milestone, and adds one celebration exactly when that frame starts one |
| `Rules.MilestoneAfterBounds` | components/TradeSimulatorModal.tsx:80-87 | over a run of frames the milestone never decreases; it ends at least at the integer part of every multiplier shown; it is either the starting milestone or one of those integer parts |
| `Rules.PushHistory` | components/TradeSimulatorModal.tsx:109 | the new history has min(old length + 1, 8) entries, the crash value first, and then a prefix of the old history |
| `Rules.RecordAllKeepsNewest` | components/TradeSimulatorModal.tsx:109 | after any number of rounds the history is the newest crash values, newest first, then what still fits of the earlier history, cut to 8 |
| `Rules.NineRoundsEvictOldest` | components/TradeSimulatorModal.tsx:109 | after nine rounds from an empty history there are 8 entries: the eight newest values, newest first, with the first round evicted |
| `Engine.CrashGame.constructor` | components/TradeSimulatorModal.tsx:16-33 | the initial state: balance 1000, empty history, multiplier 1.00, round and player IDLE, crash point 0, milestone 1, no timers and no rounds yet |
| `Engine.CrashGame.StartGame` | components/TradeSimulatorModal.tsx:48-67 | the result is CheckBet's verdict; a refused bet changes nothing; an accepted bet debits the balance (which stays ≥ 0) and stores the stake; the player becomes IN_GAME and the round RUNNING at 1.00x with milestone 1, no celebration and the crash point drawn from h; the first frame is scheduled and the round count goes up by one; the history and the timers are unchanged |
| `Engine.CrashGame.TriggerCelebration` | components/TradeSimulatorModal.tsx:97-104 | the celebration is on and its single timeout is armed once more |
| `Engine.CrashGame.CelebrationExpire` | components/TradeSimulatorModal.tsx:101-103 | the timeout switches the celebration off |
| `Engine.CrashGame.Crash` | components/TradeSimulatorModal.tsx:106-121 | CRASHED; the multiplier is frozen at the crash value; the history becomes PushHistory(value, old); the celebration and the frame loop stop; a cool-down for this round is queued; the balance is untouched |
| `Engine.CrashGame.Tick` | components/TradeSimulatorModal.tsx:69-95 | the new state is Frame applied to the current crash point and milestone; the timeout is re-armed exactly when the frame celebrates; on a crash it is exactly the Crash state with the drawn crash point recorded; otherwise the round keeps RUNNING below its crash point with the next frame scheduled; balance, stake, player and crash point are unchanged |
| `Engine.CrashGame.PlayFrames` | components/TradeSimulatorModal.tsx:66-95 | the frame loop crashes at the first sample whose clamped multiplier reaches the crash point; otherwise it is still running after all samples, showing the last one, with history and pending resets unchanged; the milestone is MilestoneAfter and the number of celebrations is Celebrations over the frames played; the balance is untouched |
| `Engine.CrashGame.CashOut` | components/TradeSimulatorModal.tsx:124-130 | outside IN_GAME + RUNNING it is a no-op that pays 0; otherwise it pays bet × multiplier (≥ bet) into the balance and the player is CASHED_OUT |
| `Engine.CrashGame.CoolDown` | components/TradeSimulatorModal.tsx:116-121 | the oldest pending reset returns its own round to IDLE (player IDLE, 1.00x) if that round is still current and CRASHED; a round launched since, crashed or not, is untouched (corrected, see Findings) |
| `Engine.CrashGame.CoolDownAsWritten` | components/TradeSimulatorModal.tsx:116-121 | the reset as written: round and player IDLE at 1.00x, unconditionally; from a CRASHED round the result is a valid IDLE state |
| `Scenarios.BetThenCashOutTwice` | components/TradeSimulatorModal.tsx:124-130 | bet 100 of 1000 and cash out at 2.50x: pays 250, the balance is 1150, and a second cash-out pays 0 |
| `Scenarios.BetAboveBalance` | components/TradeSimulatorModal.tsx:49-51 | a bet of 2000 on 1000 is refused as insufficient funds; the balance stays 1000 and the player stays IDLE |
| `Scenarios.LossOnCrash` | components/TradeSimulatorModal.tsx:106-121 | a round that crashes at 1.10x before any cash-out leaves the balance at 900 and records [1.10]; after the cool-down round and player are IDLE |
| `Scenarios.MilestoneRetrigger` | components/TradeSimulatorModal.tsx:80-104 | crossing 2x celebrates and arms the timeout once; crossing 3x arms nothing; crossing 5x re-arms it (twice in all); the timeout then clears it; the milestone is 5 |
| `Scenarios.FirstRoundReadsInitialCrashPoint` | components/TradeSimulatorModal.tsx:89-91 | as written, the first round's frames compare with the initial crash point 0, so the first frame crashes at 0.00x, below 1.10x |
| `Scenarios.LaterRoundReadsPreviousCrashPoint` | components/TradeSimulatorModal.tsx:81-91 | as written, a frame reading the previous round's crash point crashes at a sample that is still below the new round's drawn point |
| `Scenarios.StaleMilestoneCelebratesEveryFrame` | components/TradeSimulatorModal.tsx:80-87 | as written, frames at 2.1x and 2.2x that both read the pre-launch milestone 1 each start a celebration; reading the current milestone, the two frames start one |
| `Scenarios.FirstRoundReadsDrawnCrashPoint` | components/TradeSimulatorModal.tsx:89-91 | reading the current state, the first round keeps running below its drawn crash point and records that point (≥ 1.10x) |
| `Scenarios.RelaunchDuringCoolDownAsWritten` | components/TradeSimulatorModal.tsx:117-121 | as written, launching during the cool-down after a cash-out lets the pending reset make the new round IDLE while its frames run, so the new stake cannot be cashed out |
| `Scenarios.RelaunchDuringCoolDown` | components/TradeSimulatorModal.tsx:117-121 | corrected, the new round survives the reset and its stake can be cashed out (pays 200, balance 1105) |
| `Scenarios.TwoCrashesTwoResets` | components/TradeSimulatorModal.tsx:116-121 | corrected, a relaunched round that crashes before the first reset fires stays CRASHED through that reset, and only its own reset returns it to IDLE |

## Findings

| source | as written | input that shows it | evidently intended | confidence | as-written member | corrected member |
|---|---|---|---|---|---|---|
| components/TradeSimulatorModal.tsx:66-91 | `startGame` schedules the `updateGame` of the render before the launch. Every frame of the round reads that render's `crashPoint` and `lastMilestone`, not the values `startGame` just set | open the simulator, bet 100, press LAUNCH: the first frame compares with the initial crash point 0 (line 22), crashes at once and records 0.00x. Later rounds crash at the previous round's point, and the stale milestone re-triggers the celebration on every frame | each frame compares with the round's own drawn crash point (≥ 1.10x) and with the current milestone | high; not executed | `Scenarios.FirstRoundReadsInitialCrashPoint`, `Scenarios.LaterRoundReadsPreviousCrashPoint`, `Scenarios.StaleMilestoneCelebratesEveryFrame` | `Engine.CrashGame.Tick` (shown by `Scenarios.FirstRoundReadsDrawnCrashPoint`) |
| components/TradeSimulatorModal.tsx:117-121 | the 3 s reset sets the round and the player to IDLE unconditionally | bet, cash out, let the round crash, press LAUNCH again within 3 s (enabled by line 382 for a cashed-out player). The pending reset makes the new round and the player IDLE while its frames still run, so `cashOut` (line 125) refuses and the new stake is lost | a relaunch during the cool-down must not lose its stake. Either the reset returns to IDLE only the round whose crash scheduled it (the fix modelled here), or LAUNCH stays disabled while the round is CRASHED, so that nothing can be launched before the reset | high; not executed | `Engine.CrashGame.CoolDownAsWritten` (shown by `Scenarios.RelaunchDuringCoolDownAsWritten`) | `Engine.CrashGame.CoolDown` (shown by `Scenarios.RelaunchDuringCoolDown`) |

## Left out

- Growth curve and clocks are not modelled. `Math.pow(Math.E, 0.12 * elapsed)` and `performance.now()` are floating point and wall-clock time. The frame's growth sample is an input to `Tick` and `PlayFrames`, which do not assume the samples increase.
- JavaScript double arithmetic is not modelled. Balance, stake, multiplier and payout are exact reals. The floor in the draw is exact in doubles for every 32-bit `h`, but the later `/ 100` and the literal `1.10` are rounded in doubles; the model keeps exact hundredths.
- Entropy is a parameter. `crypto.getRandomValues` becomes the draw `h`. Fairness of the source is not modelled; `Odds.CrashPointAtLeast` counts the qualifying draws exactly instead.
- Bet input parsing is not modelled. `parseFloat` and the string input are JavaScript number parsing. The parsed bet is an `Option<real>` with `None` for NaN; a parse to Infinity is not modelled.
- The stored stake stands in for the input. `cashOut` re-parses the bet input (line 127), and that input is disabled while the player is not IDLE (lines 364 and 373). So the model stores the accepted stake in `bet`.
- Alerts are return values. `alert(...)` in `startGame` becomes the `Err` value returned by `StartGame`.
- Browser scheduling is not modelled. `requestAnimationFrame`, `cancelAnimationFrame` and `setTimeout` become the flags `frameScheduled` and `celebrationTimer`, the arm counter `celebrationArms`, the queue `pendingResets` (resets fire oldest first, as equal delays do), and the event methods `Tick`, `CelebrationExpire` and `CoolDown`. The 800 ms and 3000 ms delays are not modelled.
- Closing the modal is not modelled. The component cancels nothing when it closes, and the model has no teardown event.
- The stale frame state is not carried into the engine. `Engine.CrashGame.Tick` reads the current crash point and milestone, and the source's stale reads appear only in the first finding.
- `Engine.CrashGame.CoolDown` does not reset a round launched after the crash that scheduled it, which deviates from the source. To tell rounds apart, the model counts launches in `round` and tags each queued reset with its round; the source has neither. `CoolDownAsWritten` keeps the source's unconditional reset (second finding).
- The 'BETTING' player state (line 10) is declared and never entered; `Valid()` excludes it.
- React state batching and render timing are not modelled, for example a double click within one render.
- Display transforms are not modelled. `getVisualProgress`, `getSpeedStyle`, `getAvatarStyle`, `isMilestoneFrame`, the markup and the CSS keyframes are presentation only.
- The rest of the repository is not part of this model: the meme generator (an external image API), the layout components, `constants.ts`, `types.ts` and the build configuration.
