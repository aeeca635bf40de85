/**
 * `search_configurations`: run the trade chain for a number of iterations
 * and keep the configuration with the most districts won or tied by party 1.
 *
 * The draws of `random.choice` and `random.random` at iteration n are the
 * inputs `choice(n)` and `draw(n)`; the copy of the best configuration is
 * the value of its districts.
 */
module Search {
  import opened Tiles
  import opened Districts
  import opened Configurations
  import opened Wrappers

  datatype SearchError =
    | InvalidDistricts   // an assertion of `_validate_districts` fails
    | NoTradeLeft        // `random.choice` on an empty list of trades

  /** One iteration of the chain: no change, or one legal trade. */
  ghost predicate Step(ds: seq<District>, ds': seq<District>) {
    ds' == ds || exists e :: IsLegalTrade(ds, e) && ds' == ApplyTrade(ds, e.idx1, e.tile1, e.idx2, e.tile2)
  }

  /** The most districts won or tied by any configuration of the trace. */
  ghost function MaxWins(votes: Votes, trace: seq<seq<District>>): nat
    requires |trace| > 0
  {
    var last := NumWins(votes, trace[|trace| - 1]);
    if |trace| == 1 then last
    else
      var before := MaxWins(votes, trace[..|trace| - 1]);
      if last > before then last else before
  }

  /** The first configuration of the trace that reaches `MaxWins`. */
  ghost function BestOf(votes: Votes, trace: seq<seq<District>>): seq<District>
    requires |trace| > 0
  {
    if |trace| == 1 then trace[0]
    else if NumWins(votes, trace[|trace| - 1]) > MaxWins(votes, trace[..|trace| - 1]) then trace[|trace| - 1]
    else BestOf(votes, trace[..|trace| - 1])
  }

  /**
   * `MaxWins` is the maximum of the win counts along the trace and `BestOf`
   * is a configuration of the trace attaining it.
   */
  lemma {:induction false} MaxWinsIsMaximum(votes: Votes, trace: seq<seq<District>>)
    requires |trace| > 0
    ensures forall k :: 0 <= k < |trace| ==> NumWins(votes, trace[k]) <= MaxWins(votes, trace)
    ensures exists k :: 0 <= k < |trace| && BestOf(votes, trace) == trace[k]
    ensures NumWins(votes, BestOf(votes, trace)) == MaxWins(votes, trace)
  {
    if |trace| > 1 {
      var init := trace[..|trace| - 1];
      MaxWinsIsMaximum(votes, init);
      forall k | 0 <= k < |trace| - 1 ensures NumWins(votes, trace[k]) <= MaxWins(votes, trace) {
        assert trace[k] == init[k];
      }
      if NumWins(votes, trace[|trace| - 1]) <= MaxWins(votes, init) {
        var k :| 0 <= k < |init| && BestOf(votes, init) == init[k];
        assert BestOf(votes, trace) == trace[k];
      }
    }
  }

  /** The best count so far never decreases and never falls below the first configuration's. */
  lemma {:induction false} MaxWinsMonotone(votes: Votes, trace: seq<seq<District>>, n: nat)
    requires 0 < n <= |trace|
    ensures MaxWins(votes, trace[..n]) <= MaxWins(votes, trace)
    ensures NumWins(votes, trace[0]) <= MaxWins(votes, trace)
  {
    if n < |trace| {
      assert trace[..|trace| - 1][..n] == trace[..n];
      MaxWinsMonotone(votes, trace[..|trace| - 1], n);
    } else {
      assert trace[..n] == trace;
    }
    MaxWinsIsMaximum(votes, trace);
  }

  /**
   * Every configuration the chain reaches from a valid partition is a valid
   * partition with the same number of districts.
   */
  lemma {:induction false} ChainStaysValid(votes: Votes, trace: seq<seq<District>>)
    requires |trace| > 0 && ValidPartition(trace[0], votes)
    requires forall k :: 0 < k < |trace| ==> Step(trace[k - 1], trace[k])
    ensures forall k :: 0 <= k < |trace| ==> ValidPartition(trace[k], votes) && |trace[k]| == |trace[0]|
  {
    if |trace| > 1 {
      var init := trace[..|trace| - 1];
      ChainStaysValid(votes, init);
      var last, prev := trace[|trace| - 1], trace[|trace| - 2];
      assert prev == init[|init| - 1] && init[0] == trace[0];
      StepKeepsValid(votes, prev, last);
      assert trace == init + [last];
      ValidAppended(votes, init, last, |trace[0]|);
    }
  }

  /** One step keeps a valid partition valid, with as many districts. */
  lemma StepKeepsValid(votes: Votes, ds: seq<District>, ds': seq<District>)
    requires ValidPartition(ds, votes) && Step(ds, ds')
    ensures ValidPartition(ds', votes) && |ds'| == |ds|
  {
    if ds' != ds {
      var e :| IsLegalTrade(ds, e) && ds' == ApplyTrade(ds, e.idx1, e.tile1, e.idx2, e.tile2);
      ApplyTradeKeepsPartition(votes, ds, e);
    }
  }

  lemma ValidAppended(votes: Votes, init: seq<seq<District>>, last: seq<District>, n: nat)
    requires forall k :: 0 <= k < |init| ==> ValidPartition(init[k], votes) && |init[k]| == n
    requires ValidPartition(last, votes) && |last| == n
    ensures forall k :: 0 <= k < |init| + 1 ==> ValidPartition((init + [last])[k], votes) && |(init + [last])[k]| == n
  {
    forall k | 0 <= k < |init| + 1
      ensures ValidPartition((init + [last])[k], votes) && |(init + [last])[k]| == n
    {
      if k < |init| {
        assert (init + [last])[k] == init[k];
      }
    }
  }

  /** No pair of districts has a legal trade. */
  ghost predicate NoLegalTrade(ds: seq<District>) {
    forall e :: !IsLegalTrade(ds, e)
  }

  /** The stopping test at the top of each iteration. */
  predicate StopReached(stopAt: Option<int>, maxWins: int) {
    stopAt.Some? && maxWins >= stopAt.value
  }

  /**
   * `message_at` as written: `int(max_iter / 100)` is 0 for fewer than 100
   * iterations and `iter_num % message_at` then raises ZeroDivisionError.
   */
  function ProgressDueAsWritten(iterNum: nat, maxIter: nat): (r: Option<bool>)
    ensures r.None? <==> maxIter < 100
  {
    var messageAt := maxIter / 100;
    if messageAt == 0 then None else Some(iterNum % messageAt == 0)
  }

  /** With 50 iterations the first progress report already divides by zero. */
  lemma ProgressDivisionByZero()
    ensures ProgressDueAsWritten(1, 50) == None
  {
  }

  /** The progress interval, at least one iteration. */
  function ProgressInterval(maxIter: nat): (r: nat)
    ensures r >= 1
    ensures maxIter >= 1 ==> r <= maxIter
  {
    if maxIter / 100 == 0 then 1 else maxIter / 100
  }

  /** A progress line is printed after iterations that are multiples of the interval. */
  predicate ProgressDue(iterNum: nat, maxIter: nat) {
    iterNum % ProgressInterval(maxIter) == 0
  }

  /**
   * The corrected test never fails, agrees with the written one wherever
   * that one does not raise, and reports at least once in a run of
   * `maxIter >= 1` iterations.
   */
  lemma ProgressDueCorrected(iterNum: nat, maxIter: nat)
    ensures ProgressDueAsWritten(iterNum, maxIter).Some? ==>
      ProgressDueAsWritten(iterNum, maxIter) == Some(ProgressDue(iterNum, maxIter))
    ensures maxIter >= 1 ==> 1 <= ProgressInterval(maxIter) <= maxIter && ProgressDue(ProgressInterval(maxIter), maxIter)
  {
  }

  /**
   * What one iteration that found trades drew and did: the trade list it
   * chose from, the draws of `random.choice` and `random.random`, and
   * whether the proposed trade was accepted.
   */
  datatype Iteration = Iteration(trades: seq<Trade>, choice: nat, draw: real, accepted: bool)

  /**
   * One iteration that found trades: `it.trades` is an exact trade list of
   * `ds`, the trade at `it.choice % |it.trades|` is proposed, it is accepted
   * exactly when `it.draw` is at most its probability, and it is made
   * exactly when accepted.
   */
  ghost predicate Move(votes: Votes, lowerProb: real, ds: seq<District>, ds': seq<District>, it: Iteration) {
    TradesExact(ds, it.trades) && |it.trades| > 0 &&
    var e := it.trades[it.choice % |it.trades|];
    && IsLegalTrade(ds, e)
    && (it.accepted <==> it.draw <= AcceptProbability(votes, lowerProb, ds, e))
    && ds' == if it.accepted then ApplyTrade(ds, e.idx1, e.tile1, e.idx2, e.tile2) else ds
  }

  /** An iteration that found trades is one step of the chain, and there was a legal trade. */
  lemma MoveIsStep(votes: Votes, lowerProb: real, ds: seq<District>, ds': seq<District>, it: Iteration)
    requires Move(votes, lowerProb, ds, ds', it)
    ensures Step(ds, ds') && !NoLegalTrade(ds)
  {
    var e := it.trades[it.choice % |it.trades|];
    assert IsLegalTrade(ds, e);
  }

  /** Iteration k of the trace (1 <= k < |trace|) is recorded in `steps[k - 1]`. */
  ghost predicate Moves(votes: Votes, lowerProb: real, trace: seq<seq<District>>, steps: seq<Iteration>) {
    && |trace| > 0 && |steps| == |trace| - 1
    && forall k :: 0 < k < |trace| ==> Move(votes, lowerProb, trace[k - 1], trace[k], steps[k - 1])
  }

  /** The draws recorded at iteration k + 1 are `choice(k + 1)` and `draw(k + 1)`. */
  predicate Drawn(choice: nat -> nat, draw: nat -> real, steps: seq<Iteration>) {
    forall k :: 0 <= k < |steps| ==> steps[k].choice == choice(k + 1) && steps[k].draw == draw(k + 1)
  }

  /** Recording the draws of the next iteration keeps `Drawn`. */
  lemma DrawnExtended(choice: nat -> nat, draw: nat -> real, steps: seq<Iteration>, it: Iteration)
    requires Drawn(choice, draw, steps)
    requires it.choice == choice(|steps| + 1) && it.draw == draw(|steps| + 1)
    ensures Drawn(choice, draw, steps + [it])
  {
    forall k | 0 <= k < |steps| ensures (steps + [it])[k] == steps[k] {
    }
  }

  /** Recording one more iteration keeps the recorded moves. */
  lemma MovesExtended(votes: Votes, lowerProb: real, trace: seq<seq<District>>, steps: seq<Iteration>,
                      ds: seq<District>, it: Iteration)
    requires Moves(votes, lowerProb, trace, steps)
    requires Move(votes, lowerProb, trace[|trace| - 1], ds, it)
    ensures Moves(votes, lowerProb, trace + [ds], steps + [it])
  {
    var trace', steps' := trace + [ds], steps + [it];
    forall k | 0 < k < |trace'|
      ensures Move(votes, lowerProb, trace'[k - 1], trace'[k], steps'[k - 1])
    {
      if k < |trace| {
        assert trace'[k - 1] == trace[k - 1] && trace'[k] == trace[k] && steps'[k - 1] == steps[k - 1];
      }
    }
  }

  /** Every iteration recorded in the trace found a legal trade. */
  lemma MovesHadTrades(votes: Votes, lowerProb: real, trace: seq<seq<District>>, steps: seq<Iteration>)
    requires Moves(votes, lowerProb, trace, steps)
    ensures forall k :: 0 <= k < |trace| - 1 ==> !NoLegalTrade(trace[k])
  {
    forall k | 0 <= k < |trace| - 1 ensures !NoLegalTrade(trace[k]) {
      MoveIsStep(votes, lowerProb, trace[k], trace[k + 1], steps[k]);
    }
  }

  /**
   * One call of `iterate` seen from the search: `random.choice` raises
   * exactly when no legal trade is left, and otherwise the iteration is a
   * `Move` on the trade list the configuration held, with these draws.
   */
  method Advance(c: Configuration, choice: nat, draw: real) returns (exhausted: bool, ghost it: Iteration)
    requires c.Valid()
    modifies c`districts, c`possibleTrades
    ensures c.Valid()
    ensures it.trades == old(c.possibleTrades) && it.choice == choice && it.draw == draw
    ensures exhausted <==> NoLegalTrade(old(c.districts))
    ensures exhausted ==> c.districts == old(c.districts)
    ensures !exhausted ==> Move(c.votes, c.lowerProb, old(c.districts), c.districts, it)
  {
    ghost var ts := c.possibleTrades;
    var outcome := c.Iterate(choice, draw);
    exhausted := outcome == Exhausted;
    it := Iteration(ts, choice, draw, outcome == Accepted);
    if exhausted {
      forall e ensures !IsLegalTrade(old(c.districts), e) {
        assert e !in ts;
      }
    }
  }

  /**
   * `search_configurations` with `ClassicConfiguration`. `trace` holds the
   * configuration before the first iteration and after every iteration run;
   * `progress` holds (iteration, current wins, best wins) for every progress
   * line when `vrb` is set. The result is the best win count and the
   * districts of the first configuration reaching it.
   */
  method SearchConfigurations(votes: Votes, initDistricts: seq<District>, lowerProb: real, maxIter: nat,
                              stopAt: Option<int>, vrb: bool, choice: nat -> nat, draw: nat -> real)
    returns (r: Result<(nat, seq<District>), SearchError>, progress: seq<(nat, nat, nat)>,
             ghost trace: seq<seq<District>>, ghost steps: seq<Iteration>)
    ensures r == Err(InvalidDistricts) <==> !(|initDistricts| > 0 && ValidPartition(initDistricts, votes))
    ensures r != Err(InvalidDistricts) ==>
      && 1 <= |trace| <= maxIter + 1
      && trace[0] == initDistricts
      && Moves(votes, lowerProb, trace, steps) && Drawn(choice, draw, steps)
      && (forall k :: 0 < k < |trace| ==> Step(trace[k - 1], trace[k]))
      && (forall k :: 0 <= k < |trace| - 1 ==> !NoLegalTrade(trace[k]))
      && (forall k :: 0 <= k < |trace| ==> ValidPartition(trace[k], votes) && |trace[k]| == |initDistricts|)
      && (forall n :: 0 < n < |trace| ==> !StopReached(stopAt, MaxWins(votes, trace[..n])))
    ensures r == Err(NoTradeLeft) ==>
      |trace| <= maxIter && !StopReached(stopAt, MaxWins(votes, trace)) && NoLegalTrade(trace[|trace| - 1])
    ensures r.Ok? ==>
      && r.value.0 == MaxWins(votes, trace)
      && r.value.1 == BestOf(votes, trace)
      && r.value.0 == NumWins(votes, r.value.1)
      && r.value.0 >= NumWins(votes, initDistricts)
      && ValidPartition(r.value.1, votes)
      && (|trace| == maxIter + 1 || StopReached(stopAt, r.value.0))
    ensures !vrb ==> progress == []
    ensures vrb && r != Err(InvalidDistricts) ==> forall n :: n in progress ==>
      1 <= n.0 < |trace| && ProgressDue(n.0, maxIter) &&
      n.1 == NumWins(votes, trace[n.0]) && n.2 == MaxWins(votes, trace[..n.0 + 1])
  {
    progress := [];
    var created := Configuration.Create(initDistricts, votes, lowerProb);
    if created.None? {
      return Err(InvalidDistricts), progress, [], [];
    }
    var c := created.value;
    var exhausted, maxWins, best;
    exhausted, maxWins, best, progress, trace, steps := RunChain(c, votes, lowerProb, initDistricts, maxIter, stopAt, vrb, choice, draw);
    SearchOutcome(votes, lowerProb, initDistricts, stopAt, vrb, maxIter, trace, steps, progress, maxWins, best);
    r := if exhausted then Err(NoTradeLeft) else Ok((maxWins, best));
  }

  /**
   * The `for` loop of `search_configurations` on a valid configuration:
   * run until `max_iter` iterations are done, the target is reached, or no
   * trade is left (`exhausted`).
   */
  method RunChain(c: Configuration, votes: Votes, ghost lowerProb: real, ghost initDistricts: seq<District>,
                  maxIter: nat, stopAt: Option<int>, vrb: bool, choice: nat -> nat, draw: nat -> real)
    returns (exhausted: bool, maxWins: nat, best: seq<District>, progress: seq<(nat, nat, nat)>,
             ghost trace: seq<seq<District>>, ghost steps: seq<Iteration>)
    requires c.Valid() && c.votes == votes && c.lowerProb == lowerProb && c.districts == initDistricts
    modifies c`districts, c`possibleTrades
    ensures SearchState(votes, lowerProb, initDistricts, stopAt, vrb, maxIter, trace, steps, progress, maxWins, best)
    ensures Drawn(choice, draw, steps) && 1 <= |trace| <= maxIter + 1
    ensures exhausted ==>
      |trace| <= maxIter && !StopReached(stopAt, maxWins) && NoLegalTrade(trace[|trace| - 1])
    ensures !exhausted ==> |trace| == maxIter + 1 || StopReached(stopAt, maxWins)
  {
    progress := [];
    maxWins := NumWins(votes, c.districts);
    best := c.districts;
    trace, steps := [c.districts], [];
    var iterNum: nat := 1;
    exhausted := false;
    while iterNum <= maxIter
      invariant c.Valid() && c.votes == votes && c.lowerProb == lowerProb
      invariant 1 <= iterNum <= maxIter + 1 && |trace| == iterNum
      invariant trace[|trace| - 1] == c.districts
      invariant SearchState(votes, lowerProb, initDistricts, stopAt, vrb, maxIter, trace, steps, progress, maxWins, best)
      invariant Drawn(choice, draw, steps)
    {
      if StopReached(stopAt, maxWins) {
        return;
      }
      exhausted, trace, steps, progress, maxWins, best :=
        ChainIteration(c, votes, lowerProb, initDistricts, stopAt, vrb, maxIter, iterNum, choice, draw,
                       trace, steps, progress, maxWins, best);
      if exhausted {
        return;
      }
      iterNum := iterNum + 1;
    }
  }

  /**
   * The body of the loop of `search_configurations` once the target is not
   * reached: iteration `iterNum` either finds no trade (`exhausted`, and
   * nothing changes), or makes its move with the draws of that iteration
   * and records it.
   */
  method ChainIteration(c: Configuration, votes: Votes, ghost lowerProb: real, ghost initDistricts: seq<District>,
                        stopAt: Option<int>, vrb: bool, maxIter: nat, iterNum: nat,
                        choice: nat -> nat, draw: nat -> real,
                        ghost trace: seq<seq<District>>, ghost steps: seq<Iteration>,
                        progress: seq<(nat, nat, nat)>, maxWins: nat, best: seq<District>)
    returns (exhausted: bool, ghost trace': seq<seq<District>>, ghost steps': seq<Iteration>,
             progress': seq<(nat, nat, nat)>, maxWins': nat, best': seq<District>)
    requires c.Valid() && c.votes == votes && c.lowerProb == lowerProb
    requires SearchState(votes, lowerProb, initDistricts, stopAt, vrb, maxIter, trace, steps, progress, maxWins, best)
    requires Drawn(choice, draw, steps) && iterNum == |trace| && c.districts == trace[|trace| - 1]
    requires !StopReached(stopAt, maxWins)
    modifies c`districts, c`possibleTrades
    ensures c.Valid() && c.votes == votes && c.lowerProb == lowerProb
    ensures exhausted ==>
      && NoLegalTrade(trace[|trace| - 1]) && trace' == trace && steps' == steps
      && progress' == progress && maxWins' == maxWins && best' == best
    ensures !exhausted ==> |trace'| == |trace| + 1 && c.districts == trace'[|trace'| - 1]
    ensures SearchState(votes, lowerProb, initDistricts, stopAt, vrb, maxIter, trace', steps', progress', maxWins', best')
    ensures Drawn(choice, draw, steps')
  {
    ghost var it;
    exhausted, it := Advance(c, choice(iterNum), draw(iterNum));
    if exhausted {
      return exhausted, trace, steps, progress, maxWins, best;
    }
    DrawnExtended(choice, draw, steps, it);
    trace', steps', progress', maxWins', best' :=
      RecordIteration(votes, lowerProb, initDistricts, stopAt, vrb, maxIter, iterNum,
                      trace, steps, progress, maxWins, best, c.districts, it);
  }

  /**
   * The bookkeeping after iteration `iterNum` made its move: the new
   * configuration joins the trace, the best count and configuration are
   * updated, and a progress line is recorded when one is due.
   */
  method RecordIteration(votes: Votes, ghost lowerProb: real, ghost initDistricts: seq<District>,
                         stopAt: Option<int>, vrb: bool, maxIter: nat, iterNum: nat,
                         ghost trace: seq<seq<District>>, ghost steps: seq<Iteration>,
                         progress: seq<(nat, nat, nat)>, maxWins: nat, best: seq<District>,
                         ds: seq<District>, ghost it: Iteration)
    returns (ghost trace': seq<seq<District>>, ghost steps': seq<Iteration>,
             progress': seq<(nat, nat, nat)>, maxWins': nat, best': seq<District>)
    requires SearchState(votes, lowerProb, initDistricts, stopAt, vrb, maxIter, trace, steps, progress, maxWins, best)
    requires iterNum == |trace| && !StopReached(stopAt, maxWins)
    requires Move(votes, lowerProb, trace[|trace| - 1], ds, it)
    ensures trace' == trace + [ds] && steps' == steps + [it]
    ensures SearchState(votes, lowerProb, initDistricts, stopAt, vrb, maxIter, trace', steps', progress', maxWins', best')
  {
    IterationRecorded(votes, lowerProb, initDistricts, stopAt, vrb, maxIter,
                      trace, steps, progress, maxWins, best, ds, it);
    trace', steps' := trace + [ds], steps + [it];
    var wins: nat := NumWins(votes, ds);
    best' := if wins > maxWins then ds else best;
    maxWins' := if wins > maxWins then wins else maxWins;
    progress' := if vrb && ProgressDue(iterNum, maxIter) then progress + [(iterNum, wins, maxWins')] else progress;
  }

  /** What the search promises, read off the state its loop keeps. */
  lemma SearchOutcome(votes: Votes, lowerProb: real, initDistricts: seq<District>, stopAt: Option<int>,
                      vrb: bool, maxIter: nat, trace: seq<seq<District>>, steps: seq<Iteration>,
                      progress: seq<(nat, nat, nat)>, maxWins: nat, best: seq<District>)
    requires SearchState(votes, lowerProb, initDistricts, stopAt, vrb, maxIter, trace, steps, progress, maxWins, best)
    requires ValidPartition(initDistricts, votes)
    ensures trace[0] == initDistricts && Moves(votes, lowerProb, trace, steps)
    ensures forall k :: 0 < k < |trace| ==> Step(trace[k - 1], trace[k])
    ensures forall k :: 0 <= k < |trace| - 1 ==> !NoLegalTrade(trace[k])
    ensures forall k :: 0 <= k < |trace| ==> ValidPartition(trace[k], votes) && |trace[k]| == |initDistricts|
    ensures forall n :: 0 < n < |trace| ==> !StopReached(stopAt, MaxWins(votes, trace[..n]))
    ensures maxWins == MaxWins(votes, trace) && best == BestOf(votes, trace)
    ensures maxWins == NumWins(votes, best) && maxWins >= NumWins(votes, initDistricts)
    ensures ValidPartition(best, votes)
    ensures !vrb ==> progress == []
    ensures vrb ==> forall n :: n in progress ==>
      1 <= n.0 < |trace| && ProgressDue(n.0, maxIter) &&
      n.1 == NumWins(votes, trace[n.0]) && n.2 == MaxWins(votes, trace[..n.0 + 1])
  {
    SearchResult(votes, trace, initDistricts, stopAt, vrb, progress, maxIter);
    MovesHadTrades(votes, lowerProb, trace, steps);
  }

  /**
   * What the search knows after each iteration: the recorded facts of the
   * trace, the moves that built it, and the best count and configuration.
   */
  ghost predicate SearchState(votes: Votes, lowerProb: real, initDistricts: seq<District>, stopAt: Option<int>,
                              vrb: bool, maxIter: nat, trace: seq<seq<District>>, steps: seq<Iteration>,
                              progress: seq<(nat, nat, nat)>, maxWins: nat, best: seq<District>)
  {
    && TraceFacts(votes, trace, initDistricts, stopAt, vrb, progress, maxIter)
    && Moves(votes, lowerProb, trace, steps)
    && maxWins == MaxWins(votes, trace) && best == BestOf(votes, trace)
  }

  /** One iteration that was run and found trades keeps `SearchState`. */
  lemma IterationRecorded(votes: Votes, lowerProb: real, initDistricts: seq<District>, stopAt: Option<int>,
                          vrb: bool, maxIter: nat, trace: seq<seq<District>>, steps: seq<Iteration>,
                          progress: seq<(nat, nat, nat)>, maxWins: nat, best: seq<District>,
                          ds: seq<District>, it: Iteration)
    requires SearchState(votes, lowerProb, initDistricts, stopAt, vrb, maxIter, trace, steps, progress, maxWins, best)
    requires !StopReached(stopAt, maxWins)
    requires Move(votes, lowerProb, trace[|trace| - 1], ds, it)
    ensures var wins := NumWins(votes, ds);
      var maxWins' := if wins > maxWins then wins else maxWins;
      var best' := if wins > maxWins then ds else best;
      var progress' := if vrb && ProgressDue(|trace|, maxIter) then progress + [(|trace|, wins, maxWins')] else progress;
      SearchState(votes, lowerProb, initDistricts, stopAt, vrb, maxIter, trace + [ds], steps + [it],
                  progress', maxWins', best')
  {
    MoveIsStep(votes, lowerProb, trace[|trace| - 1], ds, it);
    MovesExtended(votes, lowerProb, trace, steps, ds, it);
    TraceExtended(votes, trace, ds, initDistricts, stopAt, vrb, progress, maxIter);
    BestExtended(votes, trace, ds);
    if vrb && ProgressDue(|trace|, maxIter) {
      ProgressRecorded(votes, trace + [ds], initDistricts, stopAt, progress, maxIter);
    }
  }

  /** The running maximum and the best configuration after one more configuration. */
  lemma BestExtended(votes: Votes, before: seq<seq<District>>, ds: seq<District>)
    requires |before| > 0
    ensures MaxWins(votes, before + [ds]) ==
      if NumWins(votes, ds) > MaxWins(votes, before) then NumWins(votes, ds) else MaxWins(votes, before)
    ensures BestOf(votes, before + [ds]) ==
      if NumWins(votes, ds) > MaxWins(votes, before) then ds else BestOf(votes, before)
  {
    assert (before + [ds])[..|before|] == before;
  }

  /** What the search promises about its result, from the facts recorded along the trace. */
  lemma SearchResult(votes: Votes, trace: seq<seq<District>>, initDistricts: seq<District>,
                     stopAt: Option<int>, vrb: bool, progress: seq<(nat, nat, nat)>, maxIter: nat)
    requires TraceFacts(votes, trace, initDistricts, stopAt, vrb, progress, maxIter)
    requires ValidPartition(initDistricts, votes)
    ensures forall k :: 0 <= k < |trace| ==> ValidPartition(trace[k], votes) && |trace[k]| == |initDistricts|
    ensures NumWins(votes, BestOf(votes, trace)) == MaxWins(votes, trace)
    ensures MaxWins(votes, trace) >= NumWins(votes, initDistricts)
    ensures ValidPartition(BestOf(votes, trace), votes)
  {
    MaxWinsIsMaximum(votes, trace);
    MaxWinsMonotone(votes, trace, 1);
    ChainStaysValid(votes, trace);
  }

  /** The facts the search records about every prefix of its trace. */
  ghost predicate TraceFacts(votes: Votes, trace: seq<seq<District>>, initDistricts: seq<District>,
                             stopAt: Option<int>, vrb: bool, progress: seq<(nat, nat, nat)>, maxIter: nat)
  {
    && |trace| > 0 && trace[0] == initDistricts
    && (forall k :: 0 < k < |trace| ==> Step(trace[k - 1], trace[k]))
    && (forall n :: 0 < n < |trace| ==> !StopReached(stopAt, MaxWins(votes, trace[..n])))
    && (!vrb ==> progress == [])
    && (vrb ==> forall n :: n in progress ==>
          && 1 <= n.0 < |trace| && ProgressDue(n.0, maxIter)
          && n.1 == NumWins(votes, trace[n.0]) && n.2 == MaxWins(votes, trace[..n.0 + 1]))
  }

  /** One more iteration, run because the stopping test failed, keeps the recorded facts. */
  lemma TraceExtended(votes: Votes, before: seq<seq<District>>, ds: seq<District>, initDistricts: seq<District>,
                      stopAt: Option<int>, vrb: bool, progress: seq<(nat, nat, nat)>, maxIter: nat)
    requires TraceFacts(votes, before, initDistricts, stopAt, vrb, progress, maxIter)
    requires !StopReached(stopAt, MaxWins(votes, before))
    requires Step(before[|before| - 1], ds)
    ensures TraceFacts(votes, before + [ds], initDistricts, stopAt, vrb, progress, maxIter)
  {
    var trace := before + [ds];
    forall n | 0 < n < |trace| ensures trace[..n] == before[..n] {
    }
    assert before[..|before|] == before;
  }

  /** Recording the progress line of iteration `|trace| - 1` keeps the recorded facts. */
  lemma ProgressRecorded(votes: Votes, trace: seq<seq<District>>, initDistricts: seq<District>,
                         stopAt: Option<int>, progress: seq<(nat, nat, nat)>, maxIter: nat)
    requires TraceFacts(votes, trace, initDistricts, stopAt, true, progress, maxIter)
    requires |trace| > 1 && ProgressDue(|trace| - 1, maxIter)
    ensures TraceFacts(votes, trace, initDistricts, stopAt, true,
      progress + [(|trace| - 1, NumWins(votes, trace[|trace| - 1]), MaxWins(votes, trace))], maxIter)
  {
    assert trace[..|trace|] == trace;
  }
}
