/**
 * Whole sessions driven through the engine's methods, and the two places
 * where the component as written departs from what it evidently intends.
 */
module Scenarios {
  import opened Wrappers
  import opened Odds
  import opened Rules
  import opened Engine

  /** The largest draw: its crash point is far above any multiplier used below. */
  const HighDraw: int := TwoPow32 - 1

  /**
   * Bet 100 of 1000, cash out at 2.50x: 1150. A second cash-out in the same
   * round credits nothing.
   */
  method BetThenCashOutTwice() returns (first: real, second: real, balance: real)
    ensures first == 250.0 && second == 0.0 && balance == 1150.0
  {
    var g := new CrashGame();
    var verdict := g.StartGame(Some(100.0), HighDraw);
    assert g.balance == 900.0;
    g.Tick(2.5);
    first := g.CashOut();
    second := g.CashOut();
    balance := g.balance;
  }

  /** A bet of 2000 on a balance of 1000 is refused and changes nothing. */
  method BetAboveBalance() returns (verdict: Result<real, BetError>, balance: real, player: UserState)
    ensures verdict == Err(InsufficientFunds) && balance == 1000.0 && player == UserState.Idle
  {
    var g := new CrashGame();
    verdict := g.StartGame(Some(2000.0), HighDraw);
    balance, player := g.balance, g.userState;
  }

  /**
   * Bet 100 and let the round crash at 1.10x (the smallest draw): the stake
   * stays lost, the crash is recorded, and after the cool-down the player is
   * IDLE again.
   */
  method LossOnCrash() returns (balance: real, history: seq<real>, player: UserState, round: GameState)
    ensures balance == 900.0 && history == [1.1] && player == UserState.Idle && round == GameState.Idle
  {
    var g := new CrashGame();
    var verdict := g.StartGame(Some(100.0), 0);
    g.Tick(1.2);
    g.CoolDown();
    balance, history, player, round := g.balance, g.history, g.userState, g.gameState;
  }

  /**
   * Crossing 2x starts a celebration (the timeout is armed once); crossing 3x
   * arms nothing; crossing 5x while it is still on re-arms the timeout; after
   * the timeout it is off.
   */
  method MilestoneRetrigger() returns (at2: bool, arms2: nat, arms3: nat, arms5: nat, after: bool, milestone: int)
    ensures at2 && arms2 == 1 && arms3 == 1 && arms5 == 2 && !after && milestone == 5
  {
    var g := new CrashGame();
    var verdict := g.StartGame(Some(100.0), HighDraw);
    g.Tick(2.05);
    at2, arms2 := g.celebration, g.celebrationArms;
    g.Tick(3.4);
    arms3 := g.celebrationArms;
    g.Tick(5.0);
    arms5 := g.celebrationArms;
    g.CelebrationExpire();
    after := g.celebration;
    milestone := g.lastMilestone;
  }

  // ---------------------------------------------------------------------------
  // Stale frame state
  // ---------------------------------------------------------------------------

  /**
   * As written, every frame of a round reads the crash point and milestone
   * of the render before the launch. In the first round that crash point is
   * the initial 0, so the very first frame crashes and records 0.00x,
   * below the 1.10x floor of every drawn crash point.
   */
  lemma FirstRoundReadsInitialCrashPoint(sample: real)
    ensures Frame(sample, InitialCrashPoint, 1).crashed
    ensures InitialCrashPoint < MinCrashCents as real / 100.0
  {
  }

  /**
   * As written, a later round's frames read the crash point left by the
   * round before (`crashPoint` is only set by a launch): a sample between
   * the previous point and the new round's own drawn point crashes the new
   * round, although its own crash point has not been reached.
   */
  lemma LaterRoundReadsPreviousCrashPoint(previous: real, drawn: real, sample: real)
    requires 1.1 <= previous <= sample < drawn
    ensures Frame(sample, previous, 1).crashed
    ensures !Frame(sample, drawn, 1).crashed
  {
  }

  /**
   * As written, every frame of a round compares with the milestone read
   * before the launch (1), not with the one the earlier frames raised: two
   * frames above 2x both start a celebration, where reading the current
   * milestone starts one.
   */
  lemma StaleMilestoneCelebratesEveryFrame(crashPoint: real)
    ensures Frame(2.1, crashPoint, 1).celebrate && Frame(2.2, crashPoint, 1).celebrate
    ensures Celebrations([2.1, 2.2], 1) == 1
  {
  }

  /**
   * With the current state read, the first round runs until its own drawn
   * crash point: a frame below it keeps the round running, and the crash
   * records the drawn value.
   */
  method FirstRoundReadsDrawnCrashPoint() returns (running: bool, recorded: seq<real>)
    ensures running && recorded == [CrashPoint(HighDraw)] && recorded[0] >= 1.1
  {
    var g := new CrashGame();
    var verdict := g.StartGame(Some(100.0), HighDraw);
    g.Tick(1.0);
    running := g.gameState == Running;
    g.Tick(CrashPoint(HighDraw));
    recorded := g.history;
  }

  // ---------------------------------------------------------------------------
  // Cool-down after a relaunch
  // ---------------------------------------------------------------------------

  /**
   * As written: cash out, let the round crash, and launch again during the
   * cool-down (LAUNCH is enabled for a cashed-out player while CRASHED). The
   * pending reset then puts the new round and the player back to IDLE while
   * its frames still run, so the new stake can no longer be cashed out.
   */
  method RelaunchDuringCoolDownAsWritten() returns (balance: real, framesRunning: bool, canCashOut: bool)
    ensures balance == 905.0 && framesRunning && !canCashOut
  {
    var g := new CrashGame();
    var verdict := g.StartGame(Some(100.0), 0);
    g.Tick(1.05);
    var paid := g.CashOut();
    g.Tick(1.2);
    verdict := g.StartGame(Some(100.0), HighDraw);
    g.CoolDownAsWritten();
    balance, framesRunning := g.balance, g.frameScheduled;
    canCashOut := CanCashOut(g.gameState, g.userState);
  }

  /** Corrected: the reset leaves the new round alone and its stake can still be cashed out. */
  method RelaunchDuringCoolDown() returns (balance: real, paid: real)
    ensures paid == 200.0 && balance == 1105.0
  {
    var g := new CrashGame();
    var verdict := g.StartGame(Some(100.0), 0);
    g.Tick(1.05);
    paid := g.CashOut();
    g.Tick(1.2);
    verdict := g.StartGame(Some(100.0), HighDraw);
    g.CoolDown();
    g.Tick(2.0);
    paid := g.CashOut();
    balance := g.balance;
  }

  /**
   * Corrected: a round launched during the cool-down and crashed again
   * before the first reset fires keeps its own cool-down: the first reset
   * leaves it CRASHED, and only its own reset returns it to IDLE.
   */
  method TwoCrashesTwoResets() returns (afterFirst: GameState, afterSecond: GameState, balance: real)
    ensures afterFirst == Crashed && afterSecond == GameState.Idle && balance == 905.0
  {
    var g := new CrashGame();
    var verdict := g.StartGame(Some(100.0), 0);
    g.Tick(1.05);
    var paid := g.CashOut();
    g.Tick(1.2);
    verdict := g.StartGame(Some(100.0), 0);
    g.Tick(1.3);
    g.CoolDown();
    afterFirst := g.gameState;
    g.CoolDown();
    afterSecond, balance := g.gameState, g.balance;
  }
}
