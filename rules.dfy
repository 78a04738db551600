/**
 * The pure rules the crash engine applies: bet validation, the quick-bet
 * buttons, the cash-out payout, the per-frame decision of updateGame and the
 * bounded most-recent-first crash history.
 */
module Rules {
  import opened Wrappers

  /** The round's lifecycle: 'IDLE' | 'RUNNING' | 'CRASHED'. */
  datatype GameState = Idle | Running | Crashed

  /** The player's state: 'IDLE' | 'BETTING' | 'IN_GAME' | 'CASHED_OUT' ('BETTING' is never entered). */
  datatype UserState = Idle | Betting | InGame | CashedOut

  /** The two refusals of startGame: a NaN or non-positive bet, and a bet above the balance. */
  datatype BetError = InvalidAmount | InsufficientFunds

  /** How many crash values the history keeps. */
  const HistoryCapacity: nat := 8

  /** Integer multipliers whose first crossing starts a celebration. */
  const CelebrationMilestones: set<int> := {2, 5, 10, 20, 50, 100}

  function Min(a: int, b: int): int { if a <= b then a else b }

  // ---------------------------------------------------------------------------
  // Betting
  // ---------------------------------------------------------------------------

  /**
   * startGame's validation of the parsed bet (None is NaN): a bet is accepted
   * exactly when it is a positive number no greater than the balance, and a
   * NaN or non-positive bet is reported before the balance is looked at.
   */
  function CheckBet(parsed: Option<real>, balance: real): (r: Result<real, BetError>)
    ensures r.Ok? <==> parsed.Some? && 0.0 < parsed.value <= balance
    ensures r.Ok? ==> r.value == parsed.value && balance - r.value >= 0.0
    ensures r == Err(InvalidAmount) <==> parsed.None? || parsed.value <= 0.0
    ensures r == Err(InsufficientFunds) <==> parsed.Some? && 0.0 < parsed.value && balance < parsed.value
  {
    if parsed.None? || parsed.value <= 0.0 then Err(InvalidAmount)
    else if parsed.value > balance then Err(InsufficientFunds)
    else Ok(parsed.value)
  }

  /** The quick-bet buttons '100', '500', '1k' and 'Max'. */
  datatype QuickBet = Bet100 | Bet500 | Bet1k | BetMax

  /** The amount the bet input holds after a quick-bet button is pressed. */
  function QuickBetAmount(q: QuickBet, balance: real): (r: real)
    ensures q == BetMax ==> r == balance
    ensures q != BetMax ==> r == 100.0 || r == 500.0 || r == 1000.0
  {
    match q
    case Bet100 => 100.0
    case Bet500 => 500.0
    case Bet1k => 1000.0
    case BetMax => balance
  }

  /**
   * 'Max' stakes the whole balance and is accepted whenever the balance is
   * positive; '100', '500' and '1k' stake 100, 500 and 1000 and are accepted
   * exactly when the balance covers that amount.
   */
  lemma QuickBetAccepted(q: QuickBet, balance: real)
    ensures q == BetMax ==> (CheckBet(Some(QuickBetAmount(q, balance)), balance).Ok? <==> balance > 0.0)
    ensures q == BetMax && balance > 0.0 ==> balance - QuickBetAmount(q, balance) == 0.0
    ensures q == Bet100 ==>
      CheckBet(Some(QuickBetAmount(q, balance)), balance) == (if balance >= 100.0 then Ok(100.0) else Err(InsufficientFunds))
    ensures q == Bet500 ==>
      CheckBet(Some(QuickBetAmount(q, balance)), balance) == (if balance >= 500.0 then Ok(500.0) else Err(InsufficientFunds))
    ensures q == Bet1k ==>
      CheckBet(Some(QuickBetAmount(q, balance)), balance) == (if balance >= 1000.0 then Ok(1000.0) else Err(InsufficientFunds))
  {
  }

  /**
   * Whether the LAUNCH button is on screen (the condition that chooses between
   * LAUNCH and CASH OUT) and enabled (it is disabled while the round runs).
   */
  predicate LaunchEnabled(gs: GameState, us: UserState): (r: bool)
    ensures r <==> (gs == Crashed && us != InGame) ||
                   (gs == GameState.Idle && (us == UserState.Idle || us == CashedOut))
  {
    (us == UserState.Idle || us == CashedOut || (gs == Crashed && us != InGame)) && gs != Running
  }

  /** A launch is never offered to a player whose bet is still riding, nor during a round. */
  lemma LaunchNeverInRound(gs: GameState, us: UserState)
    requires LaunchEnabled(gs, us)
    ensures us != InGame && gs != Running
  {
  }

  // ---------------------------------------------------------------------------
  // Cash-out
  // ---------------------------------------------------------------------------

  /** cashOut's guard: the player is in the round and the round is running. */
  predicate CanCashOut(gs: GameState, us: UserState): (r: bool)
    ensures r ==> !LaunchEnabled(gs, us)
  {
    us == InGame && gs == Running
  }

  /** The credit of a cash-out: the stake times the multiplier on screen. */
  function Payout(bet: real, multiplier: real): (r: real)
    ensures bet >= 0.0 && multiplier >= 1.0 ==> r >= bet
    ensures bet > 0.0 && multiplier > 1.0 ==> r > bet
    ensures r - bet == bet * (multiplier - 1.0)
  {
    bet * multiplier
  }

  // ---------------------------------------------------------------------------
  // One animation frame
  // ---------------------------------------------------------------------------

  /** `Math.max(1.00, x)`: the multiplier is never shown below 1.00x. */
  function ClampMultiplier(x: real): (r: real)
    ensures r >= 1.0 && r >= x
    ensures r == 1.0 || r == x
  {
    if x < 1.0 then 1.0 else x
  }

  /** What one frame of updateGame decides. */
  datatype FrameResult = FrameResult(multiplier: real, milestone: int, celebrate: bool, crashed: bool)

  /**
   * One frame of updateGame, given the growth sample and the crash point and
   * last milestone the frame reads: the multiplier is the clamped sample; the
   * milestone is raised to the multiplier's integer part when that is higher;
   * a celebration starts only on a newly reached milestone in
   * CelebrationMilestones; the round crashes once the multiplier reaches the
   * crash point.
   */
  function Frame(sample: real, crashPoint: real, lastMilestone: int): (r: FrameResult)
    ensures r.multiplier >= 1.0 && r.multiplier >= sample && (r.multiplier == 1.0 || r.multiplier == sample)
    ensures r.milestone >= lastMilestone && r.milestone >= r.multiplier.Floor
    ensures r.milestone == lastMilestone || r.milestone == r.multiplier.Floor
    ensures r.celebrate <==> r.milestone > lastMilestone && r.milestone in CelebrationMilestones
    ensures r.crashed <==> r.multiplier >= crashPoint
  {
    var current := ClampMultiplier(sample);
    FrameResult(current, NextMilestone(current, lastMilestone), StartsCelebration(current, lastMilestone),
                current >= crashPoint)
  }

  /** The milestone after showing `multiplier`: raised to its integer part when that is higher. */
  function NextMilestone(multiplier: real, lastMilestone: int): (r: int)
    ensures r >= lastMilestone && r >= multiplier.Floor
    ensures r == lastMilestone || r == multiplier.Floor
  {
    if multiplier.Floor > lastMilestone then multiplier.Floor else lastMilestone
  }

  /** Whether showing `multiplier` newly reaches a celebration milestone. */
  function StartsCelebration(multiplier: real, lastMilestone: int): bool
  {
    multiplier.Floor > lastMilestone && multiplier.Floor in CelebrationMilestones
  }

  /** The milestone after a run of frames, each reading the previous frame's milestone. */
  function MilestoneAfter(samples: seq<real>, lastMilestone: int): int
  {
    if samples == [] then lastMilestone
    else MilestoneAfter(samples[1..], NextMilestone(ClampMultiplier(samples[0]), lastMilestone))
  }

  /** How many celebrations a run of frames starts (each re-arms the single timeout). */
  function Celebrations(samples: seq<real>, lastMilestone: int): nat
  {
    if samples == [] then 0
    else
      var current := ClampMultiplier(samples[0]);
      (if StartsCelebration(current, lastMilestone) then 1 else 0)
      + Celebrations(samples[1..], NextMilestone(current, lastMilestone))
  }

  /**
   * One more frame at the end of a run: the milestone advances from the
   * run's milestone, and a celebration is added when that frame starts one.
   */
  lemma {:induction false} RunThenFrame(samples: seq<real>, sample: real, lastMilestone: int)
    ensures MilestoneAfter(samples + [sample], lastMilestone)
      == NextMilestone(ClampMultiplier(sample), MilestoneAfter(samples, lastMilestone))
    ensures Celebrations(samples + [sample], lastMilestone)
      == Celebrations(samples, lastMilestone)
         + (if StartsCelebration(ClampMultiplier(sample), MilestoneAfter(samples, lastMilestone)) then 1 else 0)
  {
    if samples != [] {
      assert (samples + [sample])[1..] == samples[1..] + [sample];
      RunThenFrame(samples[1..], sample, NextMilestone(ClampMultiplier(samples[0]), lastMilestone));
    } else {
      assert [] + [sample] == [sample];
    }
  }

  /**
   * Over a run of frames the milestone never decreases and ends at least at the
   * integer part of every multiplier shown; it is either the starting
   * milestone or the integer part of one of them.
   */
  lemma {:induction false} MilestoneAfterBounds(samples: seq<real>, lastMilestone: int)
    ensures MilestoneAfter(samples, lastMilestone) >= lastMilestone
    ensures forall i :: 0 <= i < |samples| ==>
      MilestoneAfter(samples, lastMilestone) >= ClampMultiplier(samples[i]).Floor
    ensures MilestoneAfter(samples, lastMilestone) == lastMilestone ||
      exists i :: 0 <= i < |samples| && MilestoneAfter(samples, lastMilestone) == ClampMultiplier(samples[i]).Floor
  {
    if samples != [] {
      var next := NextMilestone(ClampMultiplier(samples[0]), lastMilestone);
      MilestoneAfterBounds(samples[1..], next);
      var m := MilestoneAfter(samples, lastMilestone);
      assert m == MilestoneAfter(samples[1..], next);
      forall i | 0 <= i < |samples|
        ensures m >= ClampMultiplier(samples[i]).Floor
      {
        if i > 0 { assert samples[i] == samples[1..][i - 1]; }
      }
      if m != lastMilestone {
        if m == next {
          assert m == ClampMultiplier(samples[0]).Floor;
        } else {
          var j :| 0 <= j < |samples[1..]| && m == ClampMultiplier(samples[1..][j]).Floor;
          assert samples[1..][j] == samples[j + 1];
        }
      }
    }
  }

  // ---------------------------------------------------------------------------
  // Crash history
  // ---------------------------------------------------------------------------

  /**
   * `[finalValue, ...prev].slice(0, 8)`: the newest crash value first, the
   * older ones after it in their order, at most HistoryCapacity entries.
   */
  function PushHistory(v: real, history: seq<real>): (r: seq<real>)
    ensures |r| == Min(|history| + 1, HistoryCapacity)
    ensures r[0] == v
    ensures r[1..] <= history
  {
    ([v] + history)[..Min(|history| + 1, HistoryCapacity)]
  }

  /** The sequence reversed: the last element first. */
  function NewestFirst(vs: seq<real>): (r: seq<real>)
    ensures |r| == |vs|
  {
    if vs == [] then [] else [vs[|vs| - 1]] + NewestFirst(vs[..|vs| - 1])
  }

  /** The history after recording the crash values `vs`, oldest first. */
  function RecordAll(vs: seq<real>, history: seq<real>): seq<real>
  {
    if vs == [] then history else PushHistory(vs[|vs| - 1], RecordAll(vs[..|vs| - 1], history))
  }

  /**
   * After any number of rounds the history holds the HistoryCapacity most
   * recent crash values, newest first, followed by as much of the starting
   * history as still fits.
   */
  lemma {:induction false} RecordAllKeepsNewest(vs: seq<real>, history: seq<real>)
    requires |history| <= HistoryCapacity
    ensures RecordAll(vs, history) == (NewestFirst(vs) + history)[..Min(|vs| + |history|, HistoryCapacity)]
  {
    if vs != [] {
      var init, v := vs[..|vs| - 1], vs[|vs| - 1];
      RecordAllKeepsNewest(init, history);
      var prev := RecordAll(init, history);
      var all := NewestFirst(init) + history;
      assert prev == all[..Min(|init| + |history|, HistoryCapacity)];
      assert NewestFirst(vs) + history == [v] + all;
      var n := Min(|vs| + |history|, HistoryCapacity);
      assert RecordAll(vs, history) == ([v] + prev)[..n];
      assert ([v] + prev)[..n] == ([v] + all)[..n];
    }
  }

  /**
   * Nine rounds from an empty history leave eight entries: the eight newest
   * crash values, newest first; the first round's value is evicted.
   */
  lemma NineRoundsEvictOldest(vs: seq<real>)
    requires |vs| == 9
    ensures |RecordAll(vs, [])| == HistoryCapacity
    ensures forall i :: 0 <= i < HistoryCapacity ==> RecordAll(vs, [])[i] == vs[8 - i]
  {
    RecordAllKeepsNewest(vs, []);
    NewestFirstAt(vs);
  }

  lemma {:induction false} NewestFirstAt(vs: seq<real>)
    ensures forall i :: 0 <= i < |vs| ==> NewestFirst(vs)[i] == vs[|vs| - 1 - i]
  {
    if vs != [] {
      NewestFirstAt(vs[..|vs| - 1]);
    }
  }
}
