/**
 * The crash engine of the trade simulator: the component's hook state and
 * refs as the fields of one object, and its handlers as methods. Browser
 * scheduling becomes explicit events: `Tick` is one animation frame (its
 * growth sample is the input), `CelebrationExpire` the 800 ms timeout and
 * `CoolDown` the 3 s reset. Every frame reads the current state.
 */
module Engine {
  import opened Wrappers
  import opened Odds
  import opened Rules

  /** INITIAL_KIA_BALANCE */
  const InitialBalance: real := 1000.0

  /** The initial `crashPoint` state, before any round has drawn one. */
  const InitialCrashPoint: real := 0.0

  class CrashGame {
    // Session state
    var balance: real
    var history: seq<real>
    // Round state
    var multiplier: real
    var gameState: GameState
    var crashPoint: real
    var lastMilestone: int
    var celebration: bool
    // Player state: the stake accepted by the last successful launch
    var bet: real
    var userState: UserState
    // Refs and timers
    var frameScheduled: bool    // requestRef: an animation frame of updateGame is pending
    var celebrationTimer: bool  // celebrationTimeoutRef: the 800 ms celebration timeout is pending
    var celebrationArms: nat    // how many times the celebration timeout has been (re)armed
    var round: nat              // rounds launched so far
    var pendingResets: seq<nat> // scheduled 3 s cool-down callbacks, oldest first, by the round that crashed

    /** Facts that hold in every state, whatever the phase. */
    ghost predicate Ledger()
      reads this
    {
      && balance >= 0.0
      && |history| <= HistoryCapacity
      && (forall i :: 0 <= i < |history| ==> history[i] >= 1.1)
      && multiplier >= 1.0
      && lastMilestone >= 1
      && userState != Betting
      && (userState == InGame || userState == CashedOut ==> bet > 0.0)
      && (celebration ==> celebrationTimer)
    }

    /** The object invariant: the ledger, and how the phases tie the fields together. */
    ghost predicate Valid()
      reads this
    {
      && Ledger()
      && (frameScheduled <==> gameState == Running)
      && (userState == UserState.Idle <==> gameState == GameState.Idle)
      && (gameState == GameState.Idle ==> multiplier == 1.0 && !celebration)
      && (gameState == Running ==>
            crashPoint >= 1.1 && multiplier < crashPoint && multiplier.Floor <= lastMilestone)
      && (gameState == Crashed ==>
            && crashPoint >= 1.1 && multiplier == crashPoint && !celebration
            && |pendingResets| > 0 && pendingResets[|pendingResets| - 1] == round)
    }

    /** The component's initial state. */
    constructor ()
      ensures Valid()
      ensures balance == InitialBalance && history == []
      ensures multiplier == 1.0 && gameState == GameState.Idle && crashPoint == InitialCrashPoint
      ensures lastMilestone == 1 && !celebration && userState == UserState.Idle
      ensures !frameScheduled && !celebrationTimer && celebrationArms == 0
      ensures round == 0 && pendingResets == []
    {
      balance, history := InitialBalance, [];
      multiplier, gameState, crashPoint, lastMilestone, celebration := 1.0, GameState.Idle, InitialCrashPoint, 1, false;
      bet, userState := 0.0, UserState.Idle;
      frameScheduled, celebrationTimer, celebrationArms := false, false, 0;
      round, pendingResets := 0, [];
    }

    /**
     * startGame: validate the parsed bet; on acceptance debit it, start a round
     * at 1.00x with the crash point drawn from `h`, and schedule the first
     * frame. A refused bet changes nothing. Launching is only possible while
     * the LAUNCH button is enabled.
     */
    method StartGame(parsed: Option<real>, h: int) returns (verdict: Result<real, BetError>)
      requires Valid() && IsDraw(h)
      requires LaunchEnabled(gameState, userState)
      modifies this
      ensures Valid()
      ensures verdict == CheckBet(parsed, old(balance))
      ensures verdict.Err? ==> unchanged(this)
      ensures verdict.Ok? ==>
        && bet == verdict.value && balance == old(balance) - bet && balance >= 0.0
        && userState == InGame && gameState == Running
        && multiplier == 1.0 && lastMilestone == 1 && !celebration
        && crashPoint == CrashPoint(h) && frameScheduled && round == old(round) + 1
        && history == old(history) && celebrationTimer == old(celebrationTimer)
        && celebrationArms == old(celebrationArms) && pendingResets == old(pendingResets)
    {
      verdict := CheckBet(parsed, balance);
      if verdict.Err? {
        return;
      }
      bet := verdict.value;
      balance := balance - bet;
      userState := InGame;
      gameState := Running;
      multiplier := 1.0;
      lastMilestone := 1;
      celebration := false;
      crashPoint := CrashPoint(h);
      frameScheduled := true;
      round := round + 1;
    }

    /** triggerCelebration: switch the celebration on and (re)arm its single timeout. */
    method TriggerCelebration()
      modifies this`celebration, this`celebrationTimer, this`celebrationArms
      ensures celebration && celebrationTimer && celebrationArms == old(celebrationArms) + 1
    {
      celebration := true;
      celebrationTimer := true;
      celebrationArms := celebrationArms + 1;
    }

    /** The celebration timeout fires. */
    method CelebrationExpire()
      requires Valid() && celebrationTimer
      modifies this`celebration, this`celebrationTimer
      ensures Valid()
      ensures !celebration && !celebrationTimer
    {
      celebration := false;
      celebrationTimer := false;
    }

    /**
     * handleCrash: freeze the multiplier at the crash value, record it in the
     * history, stop the celebration and the frame loop, and schedule the
     * cool-down for this round. The balance is untouched: a player still in the round has
     * lost the stake debited at launch.
     */
    method Crash(finalValue: real)
      requires Ledger() && gameState == Running && frameScheduled
      requires finalValue == crashPoint && crashPoint >= 1.1
      requires userState == InGame || userState == CashedOut
      modifies this`gameState, this`multiplier, this`history, this`celebration, this`frameScheduled,
        this`pendingResets
      ensures Valid()
      ensures gameState == Crashed && multiplier == finalValue
      ensures history == PushHistory(finalValue, old(history))
      ensures !celebration && !frameScheduled && pendingResets == old(pendingResets) + [round]
    {
      gameState := Crashed;
      multiplier := finalValue;
      history := PushHistory(finalValue, history);
      celebration := false;
      frameScheduled := false;
      pendingResets := pendingResets + [round];
    }

    /**
     * updateGame: one animation frame with growth sample `sample`. The frame
     * applies Frame to the current crash point and milestone: it shows the
     * clamped multiplier, raises the milestone, celebrates a new celebration
     * milestone, and crashes at the round's crash point when the multiplier
     * reaches it; otherwise the next frame is scheduled.
     */
    method Tick(sample: real)
      requires Valid() && frameScheduled
      modifies this
      ensures Valid()
      ensures var f := Frame(sample, old(crashPoint), old(lastMilestone));
        && lastMilestone == f.milestone
        && celebrationTimer == (old(celebrationTimer) || f.celebrate)
        && celebrationArms == old(celebrationArms) + (if f.celebrate then 1 else 0)
        && (f.crashed ==>
              && gameState == Crashed && multiplier == old(crashPoint)
              && history == PushHistory(old(crashPoint), old(history))
              && !celebration && !frameScheduled && pendingResets == old(pendingResets) + [round])
        && (!f.crashed ==>
              && gameState == Running && multiplier == f.multiplier
              && history == old(history) && celebration == (old(celebration) || f.celebrate)
              && frameScheduled && pendingResets == old(pendingResets))
      ensures balance == old(balance) && bet == old(bet) && userState == old(userState)
      ensures crashPoint == old(crashPoint) && round == old(round)
    {
      var current := ClampMultiplier(sample);
      multiplier := current;
      var floorMult := current.Floor;
      if floorMult > lastMilestone {
        lastMilestone := floorMult;
        if floorMult in CelebrationMilestones {
          TriggerCelebration();
        }
      }
      if current >= crashPoint {
        Crash(crashPoint);
      }
    }

    /**
     * The animation loop: updateGame reschedules itself every frame until the
     * crash. Frames are delivered from `samples` while the round runs; the
     * crash comes at the first sample whose clamped multiplier reaches the
     * crash point, and when none does the round is still running, showing
     * the last sample. The milestone and the celebrations are those of the
     * frames played, each reading the previous frame's milestone.
     */
    method PlayFrames(samples: seq<real>) returns (played: nat)
      requires Valid() && frameScheduled
      modifies this
      ensures Valid()
      ensures played <= |samples|
      ensures forall i :: 0 <= i < played - 1 ==> ClampMultiplier(samples[i]) < crashPoint
      ensures lastMilestone == MilestoneAfter(samples[..played], old(lastMilestone))
      ensures celebrationArms == old(celebrationArms) + Celebrations(samples[..played], old(lastMilestone))
      ensures celebrationTimer == (old(celebrationTimer) || celebrationArms > old(celebrationArms))
      ensures gameState == Running ==>
        && played == |samples| && (forall i :: 0 <= i < |samples| ==> ClampMultiplier(samples[i]) < crashPoint)
        && multiplier == (if samples == [] then old(multiplier) else ClampMultiplier(samples[|samples| - 1]))
        && celebration == (old(celebration) || celebrationArms > old(celebrationArms))
        && history == old(history) && pendingResets == old(pendingResets) && frameScheduled
      ensures gameState != Running ==>
        && gameState == Crashed && 0 < played && ClampMultiplier(samples[played - 1]) >= crashPoint
        && multiplier == crashPoint && history == PushHistory(crashPoint, old(history))
        && !celebration && !frameScheduled && pendingResets == old(pendingResets) + [round]
      ensures balance == old(balance) && bet == old(bet) && userState == old(userState)
      ensures crashPoint == old(crashPoint) && round == old(round)
    {
      played := 0;
      while played < |samples| && gameState == Running
        invariant Valid()
        invariant played <= |samples|
        invariant forall i :: 0 <= i < played - 1 ==> ClampMultiplier(samples[i]) < crashPoint
        invariant lastMilestone == MilestoneAfter(samples[..played], old(lastMilestone))
        invariant celebrationArms == old(celebrationArms) + Celebrations(samples[..played], old(lastMilestone))
        invariant celebrationTimer == (old(celebrationTimer) || celebrationArms > old(celebrationArms))
        invariant gameState == Running ==>
          && (forall i :: 0 <= i < played ==> ClampMultiplier(samples[i]) < crashPoint)
          && multiplier == (if played == 0 then old(multiplier) else ClampMultiplier(samples[played - 1]))
          && celebration == (old(celebration) || celebrationArms > old(celebrationArms))
          && history == old(history) && pendingResets == old(pendingResets)
        invariant gameState != Running ==>
          && gameState == Crashed && 0 < played && ClampMultiplier(samples[played - 1]) >= crashPoint
          && multiplier == crashPoint && history == PushHistory(crashPoint, old(history))
          && !celebration && !frameScheduled && pendingResets == old(pendingResets) + [round]
        invariant balance == old(balance) && bet == old(bet) && userState == old(userState)
        invariant crashPoint == old(crashPoint) && round == old(round)
        decreases |samples| - played
      {
        RunThenFrame(samples[..played], samples[played], old(lastMilestone));
        assert samples[..played + 1] == samples[..played] + [samples[played]];
        Tick(samples[played]);
        played := played + 1;
      }
      assert played == |samples| ==> samples[..played] == samples;
    }

    /**
     * cashOut: only a player in a running round can cash out; the payout is
     * the stake times the current multiplier, credited at once, and the player
     * is then CASHED_OUT, so a second call credits nothing. Anywhere else it is
     * a no-op.
     */
    method CashOut() returns (paid: real)
      requires Valid()
      modifies this`balance, this`userState
      ensures Valid()
      ensures CanCashOut(old(gameState), old(userState)) ==>
        && paid == Payout(bet, multiplier) && paid >= bet
        && balance == old(balance) + paid && userState == CashedOut
      ensures !CanCashOut(old(gameState), old(userState)) ==>
        paid == 0.0 && balance == old(balance) && userState == old(userState)
    {
      if !CanCashOut(gameState, userState) {
        return 0.0;
      }
      paid := Payout(bet, multiplier);
      balance := balance + paid;
      userState := CashedOut;
    }

    /**
     * The oldest pending 3 s cool-down callback, as the corrected engine runs
     * it: when the round that scheduled it is still the current round and
     * still CRASHED, it returns it to IDLE with the player IDLE and the
     * multiplier at 1.00x; a round launched since is left alone.
     */
    method CoolDown()
      requires Valid() && |pendingResets| > 0
      modifies this`gameState, this`userState, this`multiplier, this`pendingResets
      ensures Valid()
      ensures pendingResets == old(pendingResets[1..])
      ensures old(pendingResets[0]) == round && old(gameState) == Crashed ==>
        gameState == GameState.Idle && userState == UserState.Idle && multiplier == 1.0
      ensures !(old(pendingResets[0]) == round && old(gameState) == Crashed) ==>
        gameState == old(gameState) && userState == old(userState) && multiplier == old(multiplier)
    {
      var scheduledBy := pendingResets[0];
      pendingResets := pendingResets[1..];
      if scheduledBy == round && gameState == Crashed {
        gameState := GameState.Idle;
        userState := UserState.Idle;
        multiplier := 1.0;
      }
    }

    /**
     * The oldest pending 3 s cool-down callback as the source writes it: it
     * resets the round and the player unconditionally, even when a new round
     * has been launched since the crash that scheduled it. When the round is
     * still CRASHED the result is a valid IDLE state.
     */
    method CoolDownAsWritten()
      requires Valid() && |pendingResets| > 0
      modifies this`gameState, this`userState, this`multiplier, this`pendingResets
      ensures pendingResets == old(pendingResets[1..])
      ensures gameState == GameState.Idle && userState == UserState.Idle && multiplier == 1.0
      ensures old(gameState) == Crashed ==> Valid()
    {
      pendingResets := pendingResets[1..];
      gameState := GameState.Idle;
      userState := UserState.Idle;
      multiplier := 1.0;
    }
  }
}
