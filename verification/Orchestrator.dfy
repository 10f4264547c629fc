/** `decompile/orchestrator.py`: the bounded generate, build and match loop for one function, and what a
    series of runs keeps. */
module Orchestrator {
  import opened Prelude

  /** `id` stands for the attempt identity in its string order; text fields are opaque. */
  datatype Attempt = Attempt(
    id: nat, exact: bool, similarity: Option<real>, changed: Option<int>, added: Option<int>, removed: Option<int>,
    candidate: Option<int>, diagnostics: seq<int>)
  {
    function Score(): real {
      if similarity.Some? then similarity.value else -1.0
    }

    function Rows(): int {
      OrZero(changed) + OrZero(added) + OrZero(removed)
    }
  }

  function OrZero(v: Option<int>): int {
    if v.Some? then v.value else 0
  }

  datatype Status = Queued | Blocked | BuildFailed | MatchedPartial | MatchedExact

  /** `profile` stands for the fields no run changes. */
  datatype State = State(
    profile: int, status: Status, attempts: int, bestId: Option<nat>, bestPercent: Option<real>,
    lastFailure: Option<int>, history: seq<Attempt>)

  datatype RunError = Unsupported

  // ---- Ranking ----

  /** The rank tuple of `a` is less than that of `b`: exact first, then similarity, then differing
      rows, then identity. */
  predicate Better(a: Attempt, b: Attempt) {
    if a.exact != b.exact then a.exact
    else if a.Score() != b.Score() then a.Score() > b.Score()
    else if a.Rows() != b.Rows() then a.Rows() < b.Rows()
    else a.id < b.id
  }

  /** Python's `min`: the first of the least. */
  function Best(history: seq<Attempt>): (b: Attempt)
    requires history != []
    ensures b in history
  {
    var last := history[|history| - 1];
    if |history| == 1 then last
    else
      var b := Best(history[..|history| - 1]);
      if Better(last, b) then last else b
  }

  function SelectBestAttempt(history: seq<Attempt>): Option<Attempt> {
    if history == [] then None else Some(Best(history))
  }

  lemma BetterOrders(a: Attempt, b: Attempt, c: Attempt)
    ensures !Better(a, a) && (Better(a, b) ==> !Better(b, a))
    ensures !Better(b, a) && !Better(c, b) ==> !Better(c, a)
    ensures Better(a, b) && !Better(c, b) ==> Better(a, c)
    ensures !Better(b, a) && Better(b, c) ==> Better(a, c)
  {
    hide Attempt.Score, Attempt.Rows;
  }

  /** Nothing beats the attempt selected, and it beats everything before it. */
  lemma {:induction false} BestIsFirstLeast(history: seq<Attempt>)
    requires history != []
    ensures forall a :: a in history ==> !Better(a, Best(history))
    ensures exists i :: 0 <= i < |history| && history[i] == Best(history)
                        && forall j :: 0 <= j < i ==> Better(Best(history), history[j])
    decreases |history|
  {
    hide Better;
    var front, last := history[..|history| - 1], history[|history| - 1];
    assert history == front + [last];
    BetterOrders(last, last, last);
    if |history| == 1 {
      assert history[0] == Best(history);
    } else {
      BestIsFirstLeast(front);
      LastOrBest(front, last, Best(front));
    }
  }

  lemma LastOrBest(front: seq<Attempt>, last: Attempt, b: Attempt)
    requires forall a :: a in front ==> !Better(a, b)
    requires exists i :: 0 <= i < |front| && front[i] == b && forall j :: 0 <= j < i ==> Better(b, front[j])
    ensures var history, best := front + [last], if Better(last, b) then last else b;
            && (forall a :: a in history ==> !Better(a, best))
            && exists i :: 0 <= i < |history| && history[i] == best && forall j :: 0 <= j < i ==> Better(best, history[j])
  {
    hide Better;
    var history := front + [last];
    BetterOrders(last, last, last);
    if Better(last, b) {
      forall a | a in front ensures Better(last, a) && !Better(a, last) {
        BetterOrders(last, b, a);
        BetterOrders(last, a, a);
      }
      assert history[|front|] == last;
    } else {
      var i :| 0 <= i < |front| && front[i] == b && forall j :: 0 <= j < i ==> Better(b, front[j]);
      assert history[i] == b;
    }
  }

  function StatusFromBest(best: Option<Attempt>): Status {
    if best.None? then Blocked
    else if best.value.exact then MatchedExact
    else if best.value.similarity.Some? then MatchedPartial
    else if best.value.candidate.Some? then BuildFailed
    else Blocked
  }

  /** A longer history keeps its selection unless something strictly better was added. */
  lemma {:induction false} BestOnlyImproves(history: seq<Attempt>, more: seq<Attempt>)
    requires history != []
    ensures Best(history + more) == Best(history)
         || (Best(history + more) in more && Better(Best(history + more), Best(history)))
    decreases |more|
  {
    hide Better;
    if more == [] {
      assert history + more == history;
    } else {
      var front, last := more[..|more| - 1], more[|more| - 1];
      BestOnlyImproves(history, front);
      assert (history + more)[..|history + more| - 1] == history + front;
      BetterOrders(last, Best(history + front), Best(history));
      BetterOrders(Best(history), Best(history + front), last);
    }
  }

  /** Selected exactly when some attempt is exact. */
  lemma ExactIffSelected(history: seq<Attempt>)
    ensures StatusFromBest(SelectBestAttempt(history)) == MatchedExact <==> exists a :: a in history && a.exact
  {
    hide Best;
    if history != [] {
      BestIsFirstLeast(history);
    }
  }

  // ---- One run ----

  /** What happens when a variant is tried: its context files cannot be read, or it has an identity and
      the attempt comes out as given; no attempt means a backend is missing. */
  datatype Trial = ContextFailure(attempt: Attempt) | Runnable(id: nat, outcome: Option<Attempt>)
  {
    predicate Consistent() {
      match this
      case ContextFailure(a) => !a.exact && a.similarity.None?
      case Runnable(id, outcome) => outcome.Some? ==> outcome.value.id == id
    }

    function Id(): nat {
      match this
      case ContextFailure(a) => a.id
      case Runnable(id, _) => id
    }
  }

  /** `available` says whether the decompiler itself is found; `failure` is its message. */
  datatype Run = Run(available: bool, failure: int, trials: seq<Trial>, maxAttempts: int, force: bool) {
    /** `variants[:max_attempts]`. */
    function Tried(): (r: seq<Trial>)
      ensures maxAttempts >= 0 ==> |r| <= maxAttempts
      ensures |r| <= |trials| && r == trials[..|r|]
    {
      if maxAttempts >= 0 then trials[..Min(maxAttempts, |trials|)]
      else trials[..Max(0, |trials| + maxAttempts)]
    }
  }

  function Ids(history: seq<Attempt>): set<nat> {
    set a | a in history :: a.id
  }

  /** The history after the remaining trials, and whether a missing backend ended the run. */
  function Continue(history: seq<Attempt>, trials: seq<Trial>, force: bool): (seq<Attempt>, bool)
    decreases |trials|
  {
    if trials == [] then (history, false)
    else
      match trials[0]
      case ContextFailure(a) =>
        Continue(if a.id in Ids(history) then history else history + [a], trials[1..], force)
      case Runnable(id, outcome) =>
        if id in Ids(history) && !force then Continue(history, trials[1..], force)
        else if outcome.None? then (history, true)
        else if outcome.value.exact then (history + [outcome.value], false)
        else Continue(history + [outcome.value], trials[1..], force)
  }

  function LastFailure(best: Option<Attempt>): Option<int> {
    if best.Some? && !best.value.exact && best.value.diagnostics != []
    then Some(best.value.diagnostics[|best.value.diagnostics| - 1])
    else None
  }

  /** The message of a run stopped by a missing build or match backend. */
  const BACKEND_MISSING := -1

  predicate Completes(state: State, run: Run) {
    run.available && !Continue(state.history, run.Tried(), run.force).1
  }

  function After(state: State, run: Run): State {
    if !run.available then state.(status := Blocked, lastFailure := Some(run.failure))
    else
      var (history, missing) := Continue(state.history, run.Tried(), run.force);
      if missing then
        state.(attempts := |history|, status := Blocked, lastFailure := Some(BACKEND_MISSING), history := history)
      else
        var best := SelectBestAttempt(history);
        State(
          state.profile, StatusFromBest(best), |history|,
          if best.Some? then Some(best.value.id) else None,
          if best.Some? then best.value.similarity else None,
          LastFailure(best), history)
  }

  method RunFunction(state: State, instructions: nat, run: Run) returns (r: Result<State, RunError>)
    ensures r == if instructions == 0 then Err(Unsupported) else Ok(After(state, run))
  {
    hide Better, Best;
    if instructions == 0 {
      return Err(Unsupported);
    }
    if !run.available {
      return Ok(state.(status := Blocked, lastFailure := Some(run.failure)));
    }
    var variants := run.Tried();
    var attempts := state.history;
    var existingIds := Ids(attempts);
    var k := 0;
    assert variants[0..] == variants;
    while k < |variants|
      invariant 0 <= k <= |variants| && existingIds == Ids(attempts)
      invariant Continue(state.history, variants, run.force) == Continue(attempts, variants[k..], run.force)
    {
      var variant := variants[k];
      assert variants[k..][0] == variant && variants[k..][1..] == variants[k + 1..];
      k := k + 1;
      match variant {
        case ContextFailure(attempt) =>
          if attempt.id !in existingIds {
            IdsGrow(attempts, attempt);
            attempts := attempts + [attempt];
            existingIds := existingIds + {attempt.id};
          }
        case Runnable(id, outcome) =>
          if id in existingIds && !run.force {
            continue;
          }
          if outcome.None? {
            return Ok(state.(
              attempts := |attempts|, status := Blocked, lastFailure := Some(BACKEND_MISSING), history := attempts));
          }
          IdsGrow(attempts, outcome.value);
          attempts := attempts + [outcome.value];
          existingIds := existingIds + {outcome.value.id};
          if outcome.value.exact {
            break;
          }
      }
    }
    var best := SelectBestAttempt(attempts);
    return Ok(State(
      state.profile, StatusFromBest(best), |attempts|,
      if best.Some? then Some(best.value.id) else None,
      if best.Some? then best.value.similarity else None,
      LastFailure(best), attempts));
  }

  lemma IdsGrow(history: seq<Attempt>, a: Attempt)
    ensures Ids(history + [a]) == Ids(history) + {a.id}
  {
    assert forall x :: x in history + [a] <==> x in history || x == a;
  }

  // ---- What one run does to the history ----

  /** Trials only append, at most one attempt each, and only attempts of the trials. */
  lemma {:induction false} ContinueAppends(history: seq<Attempt>, trials: seq<Trial>, force: bool)
    ensures history <= Continue(history, trials, force).0
    ensures |Continue(history, trials, force).0| <= |history| + |trials|
    decreases |trials|
  {
    hide Ids;
    if trials != [] {
      match trials[0]
      case ContextFailure(a) =>
        ContinueAppends(if a.id in Ids(history) then history else history + [a], trials[1..], force);
      case Runnable(id, outcome) =>
        ContinueAppends(history, trials[1..], force);
        if outcome.Some? {
          ContinueAppends(history + [outcome.value], trials[1..], force);
        }
    }
  }

  /** A run appends at most `max_attempts` attempts and loses none. */
  lemma RunAppends(state: State, run: Run)
    ensures state.history <= After(state, run).history
    ensures run.maxAttempts >= 0 ==> |After(state, run).history| <= |state.history| + run.maxAttempts
    ensures |After(state, run).history| <= |state.history| + |run.trials|
  {
    hide Continue, Best, Ids;
    ContinueAppends(state.history, run.Tried(), run.force);
  }

  ghost predicate DistinctIds(history: seq<Attempt>) {
    forall i, j :: 0 <= i < j < |history| ==> history[i].id != history[j].id
  }

  /** Without force an attempt identity is never repeated. */
  lemma {:induction false} UnforcedKeepsIdsDistinct(history: seq<Attempt>, trials: seq<Trial>)
    requires DistinctIds(history) && forall t :: t in trials ==> t.Consistent()
    ensures DistinctIds(Continue(history, trials, false).0)
    decreases |trials|
  {
    hide Ids;
    if trials != [] {
      match trials[0]
      case ContextFailure(a) =>
        DistinctAppend(history, a);
        UnforcedKeepsIdsDistinct(if a.id in Ids(history) then history else history + [a], trials[1..]);
      case Runnable(id, outcome) =>
        assert trials[0] in trials;
        UnforcedKeepsIdsDistinct(history, trials[1..]);
        if outcome.Some? && id !in Ids(history) {
          DistinctAppend(history, outcome.value);
          UnforcedKeepsIdsDistinct(history + [outcome.value], trials[1..]);
        }
    }
  }

  lemma DistinctAppend(history: seq<Attempt>, a: Attempt)
    requires DistinctIds(history)
    ensures a.id !in Ids(history) ==> DistinctIds(history + [a])
  {
    if a.id !in Ids(history) {
      forall i | 0 <= i < |history| ensures history[i].id != a.id {
        assert history[i] in history;
      }
    }
  }

  predicate Reaches(history: seq<Attempt>, trials: seq<Trial>, n: int) {
    && 0 <= n <= |trials| && (forall i :: 0 <= i < n ==> trials[i].Id() in Ids(history))
    && (n == |trials| || (trials[n].Id() !in Ids(history) && trials[n].Runnable? && trials[n].outcome.None?))
  }

  /** An unforced run adds nothing exactly when every identity it reaches is known: all of them, or all
      before one whose backend is missing. */
  lemma {:induction false} UnforcedAddsNothingIff(history: seq<Attempt>, trials: seq<Trial>)
    ensures Continue(history, trials, false).0 == history <==>
            exists n :: Reaches(history, trials, n)
    decreases |trials|
  {
    hide Ids;
    if trials == [] {
      assert Reaches(history, trials, 0);
    } else {
      var t := trials[0];
      if t.Id() in Ids(history) {
        UnforcedAddsNothingIff(history, trials[1..]);
        SkipsShift(history, trials);
      } else if t.Runnable? && t.outcome.None? {
        assert Reaches(history, trials, 0);
      } else {
        var a := if t.Runnable? then t.outcome.value else t.attempt;
        ContinueAppends(history + [a], trials[1..], false);
      }
    }
  }

  lemma SkipsShift(history: seq<Attempt>, trials: seq<Trial>)
    requires trials != [] && trials[0].Id() in Ids(history)
    ensures (exists n :: Reaches(history, trials, n)) <==> exists n :: Reaches(history, trials[1..], n)
  {
    hide Ids;
    if n :| Reaches(history, trials, n) {
      assert n > 0;
      assert Reaches(history, trials[1..], n - 1);
    }
    if n :| Reaches(history, trials[1..], n) {
      assert Reaches(history, trials, n + 1);
    }
  }

  // ---- Series of runs ----

  function StateAfter(state: State, runs: seq<Run>): State
    decreases |runs|
  {
    if runs == [] then state else After(StateAfter(state, runs[..|runs| - 1]), runs[|runs| - 1])
  }

  /** Run `k` of the series, from the state it finds, completes. */
  predicate CompletesAt(state: State, runs: seq<Run>, k: nat)
    requires k < |runs|
  {
    Completes(StateAfter(state, runs[..k]), runs[k])
  }

  lemma {:induction false} StateStep(state: State, runs: seq<Run>, k: nat)
    requires k < |runs|
    ensures StateAfter(state, runs[..k + 1]) == After(StateAfter(state, runs[..k]), runs[k])
  {
    hide After;
    assert runs[..k + 1][..k] == runs[..k];
  }

  /** Histories only grow: each is a prefix of every later one. */
  lemma {:induction false} HistoryPrefix(state: State, runs: seq<Run>, i: nat, j: nat)
    requires i <= j <= |runs|
    ensures StateAfter(state, runs[..i]).history <= StateAfter(state, runs[..j]).history
    decreases j
  {
    hide StateAfter, After;
    if i < j {
      HistoryPrefix(state, runs, i, j - 1);
      StateStep(state, runs, j - 1);
      RunAppends(StateAfter(state, runs[..j - 1]), runs[j - 1]);
    }
  }

  lemma CompletedState(state: State, run: Run)
    requires Completes(state, run)
    ensures var next := After(state, run);
            && next.status == StatusFromBest(SelectBestAttempt(next.history)) && next.attempts == |next.history|
            && (next.history != [] ==> next.bestId == Some(Best(next.history).id)
                                       && next.bestPercent == Best(next.history).similarity)
            && Coherent(next)
  {
    hide Continue, Best, StatusFromBest;
  }

  /** Across completed runs the best attempt never ranks worse, changes only for a strictly better one,
      and an exact match stays. */
  lemma {:induction false} BestNeverWorsens(state: State, runs: seq<Run>, i: nat, j: nat)
    requires i < j < |runs| && CompletesAt(state, runs, i) && CompletesAt(state, runs, j)
    requires StateAfter(state, runs[..i + 1]).history != []
    ensures var earlier, later := StateAfter(state, runs[..i + 1]), StateAfter(state, runs[..j + 1]);
            && later.history != [] && earlier.bestId == Some(Best(earlier.history).id)
            && later.bestId == Some(Best(later.history).id)
            && (Best(later.history) == Best(earlier.history)
                || Better(Best(later.history), Best(earlier.history)))
            && (earlier.status == MatchedExact ==> later.status == MatchedExact)
  {
    hide After, Better, Best, StateAfter, Continue;
    StateStep(state, runs, i);
    StateStep(state, runs, j);
    CompletedState(StateAfter(state, runs[..i]), runs[i]);
    CompletedState(StateAfter(state, runs[..j]), runs[j]);
    HistoryPrefix(state, runs, i + 1, j + 1);
    var earlier, later := StateAfter(state, runs[..i + 1]).history, StateAfter(state, runs[..j + 1]).history;
    assert later == earlier + later[|earlier|..];
    BestOnlyImproves(earlier, later[|earlier|..]);
    ExactIffSelected(earlier);
    ExactIffSelected(later);
  }

  /** A run that does not complete is reported as blocked and leaves the best fields as they were. */
  lemma BlockedKeepsBest(state: State, run: Run)
    requires !Completes(state, run)
    ensures After(state, run).status == Blocked
    ensures After(state, run).bestId == state.bestId && After(state, run).bestPercent == state.bestPercent
  {
    hide Continue;
  }

  // ---- Which trials append, and what a blocked run leaves recorded ----

  /** The identity of trial `i` is neither on record nor that of an earlier trial. */
  predicate Fresh(history: seq<Attempt>, trials: seq<Trial>, i: nat)
    requires i < |trials|
  {
    trials[i].Id() !in Ids(history) && forall j :: 0 <= j < i ==> trials[j].Id() != trials[i].Id()
  }

  /** Trial `i`, once reached, is not skipped: it is fresh, or force runs it again. */
  predicate Tries(history: seq<Attempt>, trials: seq<Trial>, force: bool, i: nat)
    requires i < |trials|
  {
    Fresh(history, trials, i) || (force && trials[i].Runnable?)
  }

  /** Trial `n` finds its backend missing, and no earlier one does or ends the run with an exact match. */
  ghost predicate BlockedAt(history: seq<Attempt>, trials: seq<Trial>, force: bool, n: nat) {
    && n < |trials| && Tries(history, trials, force, n) && trials[n].Runnable? && trials[n].outcome.None?
    && forall i: nat :: i < n && Tries(history, trials, force, i) && trials[i].Runnable? ==>
         trials[i].outcome.Some? && !trials[i].outcome.value.exact
  }

  /** The attempt a trial carries. */
  function AttemptOf(t: Trial): Option<Attempt> {
    match t
    case ContextFailure(a) => Some(a)
    case Runnable(_, outcome) => outcome
  }

  ghost predicate AllConsistent(trials: seq<Trial>) {
    forall i :: 0 <= i < |trials| ==> trials[i].Consistent()
  }

  /** Past its first trial a run goes on as from the history that trial leaves. */
  lemma TriesShift(
    history: seq<Attempt>, next: seq<Attempt>, trials: seq<Trial>, force: bool, i: nat)
    requires i + 1 < |trials| && Ids(next) == Ids(history) + {trials[0].Id()}
    ensures Tries(next, trials[1..], force, i) <==> Tries(history, trials, force, i + 1)
  {
    hide Ids, Trial.Id;
    var rest := trials[1..];
    if Fresh(next, rest, i) {
      forall j | 0 <= j < i + 1 ensures trials[j].Id() != trials[i + 1].Id() {
        if j > 0 {
          assert rest[j - 1].Id() != rest[i].Id();
        }
      }
    }
    if Fresh(history, trials, i + 1) {
      forall j | 0 <= j < i ensures rest[j].Id() != rest[i].Id() {
        assert trials[j + 1].Id() != trials[i + 1].Id();
      }
    }
  }

  /** What the first trial leaves of a run that goes on: the attempt it appends, if any. */
  function AfterFirst(history: seq<Attempt>, t: Trial, force: bool): seq<Attempt> {
    if t.Id() in Ids(history) && !(force && t.Runnable?) then history
    else if AttemptOf(t).None? then history
    else history + [AttemptOf(t).value]
  }

  predicate GoesOn(history: seq<Attempt>, t: Trial, force: bool) {
    || (t.Id() in Ids(history) && !(force && t.Runnable?))
    || t.ContextFailure? || (t.outcome.Some? && !t.outcome.value.exact)
  }

  lemma {:induction false} ContinueStep(history: seq<Attempt>, trials: seq<Trial>, force: bool)
    requires trials != [] && trials[0].Consistent()
    ensures GoesOn(history, trials[0], force) ==>
              var next := AfterFirst(history, trials[0], force);
              && Continue(history, trials, force) == Continue(next, trials[1..], force)
              && Ids(next) == Ids(history) + {trials[0].Id()}
    ensures !GoesOn(history, trials[0], force) ==>
              Continue(history, trials, force)
              == (if trials[0].outcome.Some? then history + [trials[0].outcome.value] else history,
                  trials[0].outcome.None?)
  {
    hide Ids;
    if AttemptOf(trials[0]).Some? {
      IdsGrow(history, AttemptOf(trials[0]).value);
    }
  }

  /** A run is stopped by a missing backend exactly when some trial meets one; it then ends with the
      history of the trials before. */
  lemma {:induction false} StoppedIff(history: seq<Attempt>, trials: seq<Trial>, force: bool)
    requires AllConsistent(trials)
    ensures Continue(history, trials, force).1 <==> exists n :: BlockedAt(history, trials, force, n)
    decreases |trials|
  {
    hide Ids, Trial.Id, Continue, Trial.Consistent;
    if trials == [] {
      assert !Continue(history, trials, force).1 by {
        NothingToTry(history, force);
      }
    } else {
      ContinueStep(history, trials, force);
      if GoesOn(history, trials[0], force) {
        var next := AfterFirst(history, trials[0], force);
        StoppedIff(next, trials[1..], force);
        if n: nat :| BlockedAt(next, trials[1..], force, n) {
          BlockedLater(history, next, trials, force, n);
        }
        if n: nat :| BlockedAt(history, trials, force, n) {
          FirstIsNotIt(history, trials, force, n);
          BlockedLater(history, next, trials, force, n - 1);
        }
      } else {
        FirstDecides(history, trials, force);
      }
    }
  }

  lemma {:induction false} NothingToTry(history: seq<Attempt>, force: bool)
    ensures Continue(history, [], force) == (history, false)
  {
  }

  lemma FirstIsNotIt(history: seq<Attempt>, trials: seq<Trial>, force: bool, n: nat)
    requires trials != [] && GoesOn(history, trials[0], force) && BlockedAt(history, trials, force, n)
    ensures n > 0
  {
    hide Ids, Trial.Id;
  }

  lemma FirstDecides(history: seq<Attempt>, trials: seq<Trial>, force: bool)
    requires trials != [] && !GoesOn(history, trials[0], force)
    ensures trials[0].Runnable?
    ensures (exists n :: BlockedAt(history, trials, force, n)) <==> trials[0].outcome.None?
  {
    hide Ids, Trial.Id;
    assert Tries(history, trials, force, 0);
    if trials[0].outcome.None? {
      assert BlockedAt(history, trials, force, 0);
    }
  }

  lemma BlockedLater(
    history: seq<Attempt>, next: seq<Attempt>, trials: seq<Trial>, force: bool, n: nat)
    requires trials != [] && GoesOn(history, trials[0], force)
    requires Ids(next) == Ids(history) + {trials[0].Id()}
    ensures BlockedAt(next, trials[1..], force, n) <==> BlockedAt(history, trials, force, n + 1)
  {
    hide Ids, Trial.Id, Tries;
    var rest := trials[1..];
    forall i: nat | i < |rest| ensures Tries(next, rest, force, i) <==> Tries(history, trials, force, i + 1) {
      TriesShift(history, next, trials, force, i);
    }
    if BlockedAt(next, rest, force, n) {
      forall i: nat | i < n + 1 && Tries(history, trials, force, i) && trials[i].Runnable?
        ensures trials[i].outcome.Some? && !trials[i].outcome.value.exact
      {
        if i == 0 {
          FirstTried(history, trials, force);
        } else {
          assert Tries(next, rest, force, i - 1) && rest[i - 1] == trials[i];
        }
      }
    }
    if BlockedAt(history, trials, force, n + 1) {
      forall i: nat | i < n && Tries(next, rest, force, i) && rest[i].Runnable?
        ensures rest[i].outcome.Some? && !rest[i].outcome.value.exact
      {
        assert Tries(history, trials, force, i + 1) && rest[i] == trials[i + 1];
      }
    }
  }

  lemma FirstTried(history: seq<Attempt>, trials: seq<Trial>, force: bool)
    requires trials != [] && GoesOn(history, trials[0], force)
    requires Tries(history, trials, force, 0) && trials[0].Runnable?
    ensures trials[0].outcome.Some? && !trials[0].outcome.value.exact
  {
    hide Ids;
  }

  /** The attempts of the tried trials before `n`. */
  ghost predicate Appended(history: seq<Attempt>, trials: seq<Trial>, force: bool, n: nat, a: Attempt)
    requires n <= |trials|
  {
    exists i: nat :: i < n && Tries(history, trials, force, i) && AttemptOf(trials[i]) == Some(a)
  }

  /** A run stopped at trial `n` has appended exactly the attempts of the tried trials before it. */
  lemma {:induction false} StoppedHistory(history: seq<Attempt>, trials: seq<Trial>, force: bool, n: nat)
    requires AllConsistent(trials) && BlockedAt(history, trials, force, n)
    ensures history <= Continue(history, trials, force).0
    ensures forall a :: a in Continue(history, trials, force).0[|history|..] <==> Appended(history, trials, force, n, a)
    decreases |trials|
  {
    hide Ids, Trial.Id, Continue, Tries, Trial.Consistent;
    ContinueStep(history, trials, force);
    ContinueAppends(history, trials, force);
    var final := Continue(history, trials, force).0;
    if n == 0 {
      StopsAtFirst(history, trials, force);
      assert final[|history|..] == [];
    } else {
      GoesOnBefore(history, trials, force, n);
      var next, rest := AfterFirst(history, trials[0], force), trials[1..];
      BlockedLater(history, next, trials, force, n - 1);
      StoppedHistory(next, rest, force, n - 1);
      forall a ensures a in final[|history|..] <==> Appended(history, trials, force, n, a) {
        AppendedStep(history, trials, force, n, a);
        assert final[|history|..] == next[|history|..] + final[|next|..];
      }
    }
  }

  lemma StopsAtFirst(history: seq<Attempt>, trials: seq<Trial>, force: bool)
    requires BlockedAt(history, trials, force, 0)
    ensures !GoesOn(history, trials[0], force)
  {
    hide Ids, Trial.Id;
  }

  lemma GoesOnBefore(history: seq<Attempt>, trials: seq<Trial>, force: bool, n: nat)
    requires n > 0 && BlockedAt(history, trials, force, n)
    ensures GoesOn(history, trials[0], force)
    ensures history <= AfterFirst(history, trials[0], force)
  {
    hide Ids, Trial.Id;
    assert Tries(history, trials, force, 0) <==>
           trials[0].Id() !in Ids(history) || (force && trials[0].Runnable?);
  }

  lemma AppendedStep(history: seq<Attempt>, trials: seq<Trial>, force: bool, n: nat, a: Attempt)
    requires 0 < n <= |trials| && GoesOn(history, trials[0], force)
    requires var next := AfterFirst(history, trials[0], force); Ids(next) == Ids(history) + {trials[0].Id()}
    ensures var next := AfterFirst(history, trials[0], force);
            history <= next
            && (Appended(history, trials, force, n, a)
                <==> a in next[|history|..] || Appended(next, trials[1..], force, n - 1, a))
  {
    hide Ids, Trial.Id, Tries;
    var next, rest := AfterFirst(history, trials[0], force), trials[1..];
    FirstAppends(history, trials, force);
    forall i: nat | i < |rest| ensures Tries(next, rest, force, i) <==> Tries(history, trials, force, i + 1) {
      TriesShift(history, next, trials, force, i);
    }
    if i: nat :| i < n && Tries(history, trials, force, i) && AttemptOf(trials[i]) == Some(a) {
      if i > 0 {
        assert Tries(next, rest, force, i - 1) && AttemptOf(rest[i - 1]) == Some(a);
      }
    }
    if i: nat :| i < n - 1 && Tries(next, rest, force, i) && AttemptOf(rest[i]) == Some(a) {
      assert Tries(history, trials, force, i + 1) && AttemptOf(trials[i + 1]) == Some(a);
    }
  }

  lemma FirstAppends(history: seq<Attempt>, trials: seq<Trial>, force: bool)
    requires trials != [] && GoesOn(history, trials[0], force)
    ensures var next := AfterFirst(history, trials[0], force);
            next == history + if Tries(history, trials, force, 0) then [AttemptOf(trials[0]).value] else []
    ensures Tries(history, trials, force, 0) ==> AttemptOf(trials[0]).Some?
  {
    hide Ids, Trial.Id;
    assert Tries(history, trials, force, 0) <==>
           trials[0].Id() !in Ids(history) || (force && trials[0].Runnable?);
  }

  /** The best fields name the best attempt of the history. */
  ghost predicate Coherent(state: State) {
    if state.history == [] then state.bestId == None else state.bestId == Some(Best(state.history).id)
  }

  /** A blocked run leaves the best attempt of the history as it was exactly when no trial it tried
      carries a better one. */
  lemma {:induction false} BestStaysIff(history: seq<Attempt>, trials: seq<Trial>, force: bool, n: nat)
    requires AllConsistent(trials) && BlockedAt(history, trials, force, n) && history != []
    ensures Continue(history, trials, force).0 != []
    ensures Best(Continue(history, trials, force).0) == Best(history)
       <==> forall i: nat :: i < n && Tries(history, trials, force, i) ==>
              !Better(AttemptOf(trials[i]).value, Best(history))
  {
    hide Ids, Continue, Tries, Better, Best, Trial.Consistent;
    StoppedHistory(history, trials, force, n);
    TriedCarry(history, trials, force, n);
    var final := Continue(history, trials, force).0;
    var more := final[|history|..];
    assert final == history + more;
    BestOnlyImproves(history, more);
    BestIsFirstLeast(final);
    if Best(final) == Best(history) {
      forall i: nat | i < n && Tries(history, trials, force, i)
        ensures !Better(AttemptOf(trials[i]).value, Best(history))
      {
        var a := AttemptOf(trials[i]).value;
        assert Appended(history, trials, force, n, a);
        assert a in more && a in final;
      }
    } else {
      assert Appended(history, trials, force, n, Best(final));
    }
  }

  lemma TriedCarry(history: seq<Attempt>, trials: seq<Trial>, force: bool, n: nat)
    requires BlockedAt(history, trials, force, n)
    ensures forall i: nat :: i < n && Tries(history, trials, force, i) ==> AttemptOf(trials[i]).Some?
  {
    hide Tries;
  }

  /** No fresh trial before `n` carries a better attempt than the best on record; with nothing on
      record, there is no trial before `n`. */
  ghost predicate NothingBetterBefore(history: seq<Attempt>, trials: seq<Trial>, n: nat)
    requires AllConsistent(trials) && BlockedAt(history, trials, false, n)
  {
    if history == [] then n == 0
    else
      forall i: nat :: i < n && Fresh(history, trials, i) && AttemptOf(trials[i]).Some? ==>
        !Better(AttemptOf(trials[i]).value, Best(history))
  }

  lemma BlockedCoherentIff(state: State, run: Run, n: nat)
    requires Coherent(state) && DistinctIds(state.history) && run.available && !run.force
    requires AllConsistent(run.Tried()) && BlockedAt(state.history, run.Tried(), false, n)
    ensures Coherent(After(state, run)) <==> NothingBetterBefore(state.history, run.Tried(), n)
  {
    hide Ids, Continue, Better, Best, Trial.Consistent, BlockedAt, Fresh, Appended;
    var history, trials := state.history, run.Tried();
    StoppedIff(history, trials, false);
    StoppedHistory(history, trials, false, n);
    TriedCarry(history, trials, false, n);
    BlockedKeepsBest(state, run);
    var final := Continue(history, trials, false).0;
    if history == [] {
      EmptyAppends(trials, n);
      assert final[|history|..] == final;
    } else {
      BestStaysIff(history, trials, false, n);
      UnforcedBestId(history, trials);
    }
  }

  /** When an unforced run from a coherent state does not complete, the recorded best stays the best of
      the history exactly when the decompiler itself was missing or nothing better was tried before the
      trial whose backend was missing. */
  lemma IncompleteCoherentIff(state: State, run: Run)
    requires Coherent(state) && DistinctIds(state.history) && !run.force && AllConsistent(run.Tried())
    requires !Completes(state, run)
    ensures run.available ==> exists n :: BlockedAt(state.history, run.Tried(), false, n)
    ensures Coherent(After(state, run))
       <==> !run.available
            || forall n: nat :: BlockedAt(state.history, run.Tried(), false, n) ==>
                 NothingBetterBefore(state.history, run.Tried(), n)
  {
    hide Continue, Best, BlockedAt, NothingBetterBefore, AllConsistent, Coherent;
    if run.available {
      StoppedIff(state.history, run.Tried(), false);
      forall n: nat | BlockedAt(state.history, run.Tried(), false, n)
        ensures Coherent(After(state, run)) <==> NothingBetterBefore(state.history, run.Tried(), n)
      {
        BlockedCoherentIff(state, run, n);
      }
    } else {
      UnavailableCoherent(state, run);
    }
  }

  lemma UnavailableCoherent(state: State, run: Run)
    requires Coherent(state) && !run.available
    ensures Coherent(After(state, run))
  {
  }

  /** With distinct identities the recorded identity is the best one's exactly when the best stayed. */
  lemma {:induction false} UnforcedBestId(history: seq<Attempt>, trials: seq<Trial>)
    requires DistinctIds(history) && AllConsistent(trials) && history != []
    ensures var final := Continue(history, trials, false).0;
            final != [] && (Best(final).id == Best(history).id <==> Best(final) == Best(history))
  {
    hide Continue, Better, Best, Trial.Consistent;
    ContinueAppends(history, trials, false);
    assert forall t :: t in trials ==> t.Consistent();
    UnforcedKeepsIdsDistinct(history, trials);
    var final := Continue(history, trials, false).0;
    assert Best(history) in history && Best(history) in final && Best(final) in final;
  }

  /** From nothing, everything before the blocked trial leaves a first attempt. */
  lemma {:induction false} EmptyAppends(trials: seq<Trial>, n: nat)
    requires AllConsistent(trials) && BlockedAt([], trials, false, n)
    ensures Continue([], trials, false).0 == [] <==> n == 0
  {
    hide Continue, Trial.Consistent;
    StoppedHistory([], trials, false, n);
    TriedCarry([], trials, false, n);
    var final := Continue([], trials, false).0;
    assert final[0..] == final;
    assert |final| > 0 ==> final[0] in final[0..];
    if n > 0 {
      assert Ids([]) == {};
      assert Tries([], trials, false, 0);
      assert Appended([], trials, false, n, AttemptOf(trials[0]).value);
    }
  }

  /** The best fields may then lag behind the history: here the first variant is recorded before the
      second finds its backend missing. */
  lemma BlockedBestMayLag()
    ensures exists state: State, run: Run ::
              var next := After(state, run);
              next.history != [] && next.bestId != Some(Best(next.history).id)
  {
    var a := Attempt(1, false, Some(50.0), None, None, None, None, []);
    var state := State(0, Queued, 0, None, None, None, []);
    var run := Run(true, 0, [Runnable(1, Some(a)), Runnable(2, None)], 2, false);
    assert run.Tried() == run.trials;
    assert run.trials[1..] == [Runnable(2, None)];
    assert Continue([a], [Runnable(2, None)], false) == ([a], true) by {
      assert Ids([a]) == {1};
    }
    assert Ids([]) == {};
    assert [] + [a] == [a];
    assert Continue([], run.trials, false) == ([a], true);
    assert After(state, run).history == [a];
  }

  /** Rerunning, unforced, a series of variants whose identities are all on record changes nothing. */
  lemma RerunAddsNothing(state: State, run: Run)
    requires run.available && !run.force
    requires forall t :: t in run.Tried() ==> t.Id() in Ids(state.history)
    ensures Completes(state, run) && After(state, run).history == state.history
  {
    hide Ids;
    AllKnown(state.history, run.Tried());
  }

  lemma {:induction false} AllKnown(history: seq<Attempt>, trials: seq<Trial>)
    requires forall t :: t in trials ==> t.Id() in Ids(history)
    ensures Continue(history, trials, false) == (history, false)
    decreases |trials|
  {
    hide Ids;
    if trials != [] {
      assert trials[0] in trials;
      AllKnown(history, trials[1..]);
    }
  }

  // ---- What a completed run records, field by field ----

  /** An attempt's similarity, where none counts as minus one. */
  function Similarity(a: Attempt): real {
    match a.similarity
    case Some(percent) => percent
    case None => -1.0
  }

  /** Rows changed, added and removed; an absent count is zero. */
  function DifferingRows(a: Attempt): int {
    (match a.changed case Some(n) => n case None => 0)
    + (match a.added case Some(n) => n case None => 0)
    + (match a.removed case Some(n) => n case None => 0)
  }

  /** `b` comes before every attempt: exact ones first, then higher similarity, then fewer differing
      rows, then the lesser identity. */
  ghost predicate RanksFirst(history: seq<Attempt>, b: Attempt) {
    && b in history
    && forall a :: a in history ==>
         && (a.exact ==> b.exact)
         && (a.exact == b.exact ==> Similarity(a) <= Similarity(b))
         && (a.exact == b.exact && Similarity(a) == Similarity(b) ==> DifferingRows(b) <= DifferingRows(a))
         && (a.exact == b.exact && Similarity(a) == Similarity(b) && DifferingRows(b) == DifferingRows(a) ==> b.id <= a.id)
  }

  /** The state shows attempt `b`: an exact match, else a partial one when it was compared, else a failed
      build when it left a candidate; its last diagnostic unless it is exact. */
  ghost predicate Shows(state: State, b: Attempt) {
    && state.bestId == Some(b.id) && state.bestPercent == b.similarity
    && (state.status == MatchedExact <==> b.exact)
    && (state.status == MatchedPartial <==> !b.exact && b.similarity.Some?)
    && (state.status == BuildFailed <==> !b.exact && b.similarity.None? && b.candidate.Some?)
    && (state.status == Blocked <==> !b.exact && b.similarity.None? && b.candidate.None?)
    && state.lastFailure == if b.exact || b.diagnostics == [] then None
                            else Some(b.diagnostics[|b.diagnostics| - 1])
  }

  /** A run that completes records the first-ranked attempt of its whole history, or nothing of an empty one. */
  lemma CompletedShowsBest(state: State, run: Run)
    requires Completes(state, run)
    ensures var next := After(state, run);
            && next.attempts == |next.history| && next.profile == state.profile
            && if next.history == [] then
                 next.status == Blocked && next.bestId == None && next.bestPercent == None && next.lastFailure == None
               else exists b :: RanksFirst(next.history, b) && Shows(next, b)
  {
    hide Continue, Best, Better;
    var next := After(state, run);
    if next.history != [] {
      BestRanksFirst(next.history);
      assert Shows(next, Best(next.history));
    }
  }

  lemma BestRanksFirst(history: seq<Attempt>)
    requires history != []
    ensures RanksFirst(history, Best(history))
  {
    hide Best;
    BestIsFirstLeast(history);
  }

  /** A blocked run counts its attempts and names the failure; everything else is as it was. */
  lemma BlockedShows(state: State, run: Run)
    requires !Completes(state, run)
    ensures var next := After(state, run);
            && next.status == Blocked && next.profile == state.profile
            && (if run.available then next.attempts == |next.history| && next.lastFailure == Some(BACKEND_MISSING)
                else next.attempts == state.attempts && next.history == state.history
                     && next.lastFailure == Some(run.failure))
  {
    hide Continue;
  }
}
