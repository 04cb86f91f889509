/** Recovery of the configuration file watcher (crates/domain/src/config_hotreload.rs): bounded
    retries, then polling, then giving up, driven by reported outcomes. */
module WatcherRecoveryLoop {
  const MAX_RETRIES := 3
  const BACKOFF_MS := [500, 2000, 5000]
  const POLL_INTERVAL_MS := 5000

  datatype Status = Active | Polling | Disabled

  datatype Step = WaitThenRecreate(ms: nat) | SwitchToPolling(ms: nat) | GiveUp | Continue

  datatype Report = WatcherError | Recreated | RecreateFailed | PollingFailed

  datatype Watcher = Watcher(status: Status, attempt: nat)

  /** The state after a report. */
  function After(w: Watcher, report: Report): Watcher {
    match report
    case WatcherError => w.(attempt := 0)
    case Recreated => Watcher(Active, 0)
    case RecreateFailed => if w.attempt + 1 < MAX_RETRIES then w.(attempt := w.attempt + 1) else w.(status := Polling)
    case PollingFailed => w.(status := Disabled)
  }

  class WatcherRecovery {
    var status: Status
    var attempt: nat

    /** The backoff table covers every attempt. */
    ghost predicate Valid()
      reads this
    {
      attempt < MAX_RETRIES
    }

    ghost function State(): Watcher
      reads this
    {
      Watcher(status, attempt)
    }

    constructor ()
      ensures Valid() && State() == Watcher(Active, 0)
    {
      status, attempt := Active, 0;
    }

    constructor ForcePolling()
      ensures Valid() && State() == Watcher(Polling, 0)
    {
      status, attempt := Polling, 0;
    }

    /** Lines 275-278. */
    method OnWatcherError() returns (step: Step)
      modifies this
      ensures Valid() && State() == After(old(State()), WatcherError)
      ensures step == WaitThenRecreate(500)
    {
      attempt := 0;
      step := RetryStep();
    }

    method RetryStep() returns (step: Step)
      requires Valid()
      ensures step == WaitThenRecreate([500, 2000, 5000][attempt])
    {
      step := WaitThenRecreate(BACKOFF_MS[attempt]);
    }

    /** Lines 285-297. */
    method OnRecreateResult(succeeded: bool) returns (step: Step)
      requires Valid()
      modifies this
      ensures Valid() && State() == After(old(State()), if succeeded then Recreated else RecreateFailed)
      ensures step == if succeeded then Continue
                      else if old(attempt) == 0 then WaitThenRecreate(2000)
                      else if old(attempt) == 1 then WaitThenRecreate(5000)
                      else SwitchToPolling(5000)
    {
      if succeeded {
        status, attempt := Active, 0;
        return Continue;
      }
      if attempt + 1 < MAX_RETRIES {
        attempt := attempt + 1;
        step := RetryStep();
        return;
      }
      status := Polling;
      return SwitchToPolling(POLL_INTERVAL_MS);
    }

    /** Lines 300-303. */
    method OnPollingFailure() returns (step: Step)
      requires Valid()
      modifies this
      ensures Valid() && State() == After(old(State()), PollingFailed) && step == GiveUp
    {
      status := Disabled;
      return GiveUp;
    }
  }

  /** The state after a run of reports. */
  ghost function AfterAll(w: Watcher, reports: seq<Report>): Watcher {
    if reports == [] then w else After(AfterAll(w, reports[..|reports| - 1]), reports[|reports| - 1])
  }

  /** Failed recreations since the last watcher error or successful recreation. */
  ghost function FailuresInARow(reports: seq<Report>): nat {
    if reports == [] then 0
    else
      var before := FailuresInARow(reports[..|reports| - 1]);
      match reports[|reports| - 1]
      case WatcherError => 0
      case Recreated => 0
      case RecreateFailed => before + 1
      case PollingFailed => before
  }

  /** Over any run the attempt number counts the failures in a row, up to the last entry of the backoff
      table. So the next failed recreation switches to polling from the third in a row on, and otherwise
      leaves the status alone. */
  lemma {:induction false} AttemptCountsFailures(w: Watcher, reports: seq<Report>)
    requires w.attempt == 0
    ensures var n, now := FailuresInARow(reports), AfterAll(w, reports);
            && now.attempt == (if n < 3 then n else 2) && now.attempt < |BACKOFF_MS|
            && After(now, RecreateFailed).status == if n + 1 >= 3 then Polling else now.status
  {
    if reports != [] {
      AttemptCountsFailures(w, reports[..|reports| - 1]);
    }
  }

  /** Report `i` exhausts the retries. */
  ghost predicate Exhausts(reports: seq<Report>, i: nat)
    requires i < |reports|
  {
    reports[i] == RecreateFailed && FailuresInARow(reports[..i]) + 1 >= 3
  }

  /** Report `i` gave up and nothing since has revived the watcher. */
  ghost predicate GaveUpAt(reports: seq<Report>, i: nat) {
    && i < |reports| && reports[i] == PollingFailed
    && forall j :: i < j < |reports| ==> reports[j] != Recreated && !Exhausts(reports, j)
  }

  /** Giving up is not final: the watcher is disabled exactly when polling failed and since then no
      recreation succeeded and none exhausted the retries again. */
  lemma {:induction false} DisabledIff(w: Watcher, reports: seq<Report>)
    requires w.attempt == 0 && w.status != Disabled
    ensures AfterAll(w, reports).status == Disabled <==> exists i :: GaveUpAt(reports, i)
  {
    if reports != [] {
      var n := |reports| - 1;
      DisabledIff(w, reports[..n]);
      AttemptCountsFailures(w, reports[..n]);
      forall i ensures GaveUpAt(reports, i)
                       <==> if i == n then reports[n] == PollingFailed
                            else GaveUpAt(reports[..n], i) && reports[n] != Recreated && !Exhausts(reports, n)
      {
        GaveUpSnoc(reports, i);
      }
      assert reports[n] == PollingFailed ==> GaveUpAt(reports, n);
    }
  }

  lemma GaveUpSnoc(reports: seq<Report>, i: nat)
    requires reports != []
    ensures var n := |reports| - 1;
            GaveUpAt(reports, i) <==> if i == n then reports[n] == PollingFailed
                                      else GaveUpAt(reports[..n], i) && reports[n] != Recreated && !Exhausts(reports, n)
  {
    var n := |reports| - 1;
    forall j | 0 <= j < n ensures Exhausts(reports[..n], j) <==> Exhausts(reports, j) {
      assert reports[..n][..j] == reports[..j];
    }
  }

  /** Report `i` settles the status: a successful recreation, a polling failure, or exhausted retries. */
  ghost predicate Settles(reports: seq<Report>, i: nat)
    requires i < |reports|
  {
    reports[i] == Recreated || reports[i] == PollingFailed || Exhausts(reports, i)
  }

  /** The last settling report settles it; before any, the status is the first one. */
  lemma {:induction false} StatusIsSettled(w: Watcher, reports: seq<Report>, i: nat)
    requires w.attempt == 0 && i <= |reports|
    requires i > 0 ==> Settles(reports, i - 1)
    requires forall j :: i <= j < |reports| ==> !Settles(reports, j)
    ensures AfterAll(w, reports).status
            == if i == 0 then w.status
               else match reports[i - 1] { case Recreated => Active case PollingFailed => Disabled case _ => Polling }
    decreases |reports|
  {
    if reports != [] {
      var n := |reports| - 1;
      AttemptCountsFailures(w, reports[..n]);
      if i <= n {
        forall j | 0 <= j < n ensures Settles(reports[..n], j) <==> Settles(reports, j) {
          assert reports[..n][..j] == reports[..j];
        }
        StatusIsSettled(w, reports[..n], i);
        assert !Settles(reports, n);
        assert i > 0 ==> reports[..n][i - 1] == reports[i - 1];
      }
    }
  }

  /** For instance, a recreation that succeeds after polling failed. */
  lemma RevivedExample()
    ensures AfterAll(Watcher(Active, 0), [PollingFailed]).status == Disabled
    ensures AfterAll(Watcher(Active, 0), [PollingFailed, Recreated]).status == Active
  {
    assert [PollingFailed, Recreated][..1] == [PollingFailed] && [PollingFailed][..0] == [];
  }
}
