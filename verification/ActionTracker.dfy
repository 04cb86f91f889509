/** The sliding-window rate limiter (crates/domain/src/autonomy.rs). */
module RateLimiter {

  /** `now.duration_since(t)`, which saturates at zero. */
  function Elapsed(now: int, t: int): nat { if now >= t then now - t else 0 }

  /** The entries of `ts` less than one window old at `now`, in order. */
  function Recent(ts: seq<int>, now: int, window: nat): (r: seq<int>)
    ensures |r| <= |ts|
  {
    if ts == [] then []
    else
      var n := |ts| - 1;
      Recent(ts[..n], now, window) + if Elapsed(now, ts[n]) < window then [ts[n]] else []
  }

  lemma RecentSnoc(ts: seq<int>, t: int, now: int, window: nat)
    ensures Recent(ts + [t], now, window) == Recent(ts, now, window) + if Elapsed(now, t) < window then [t] else []
  {
    assert (ts + [t])[..|ts|] == ts;
  }

  /** Pruning early loses nothing that a later prune would keep. */
  lemma {:induction false} PruneTwice(ts: seq<int>, now: int, later: int, window: nat)
    requires now <= later
    ensures Recent(Recent(ts, now, window), later, window) == Recent(ts, later, window)
  {
    if ts != [] {
      var n := |ts| - 1;
      PruneTwice(ts[..n], now, later, window);
      if Elapsed(now, ts[n]) < window {
        RecentSnoc(Recent(ts[..n], now, window), ts[n], later, window);
      } else {
        assert Recent(ts, now, window) == Recent(ts[..n], now, window);
      }
    }
  }

  /** The entries less than one window old, over the raw times. */
  ghost function Young(ts: seq<int>, now: int, window: nat): set<int> {
    set i | 0 <= i < |ts| && now - ts[i] < window
  }

  lemma OneMoreYoung(ts: seq<int>, now: int, window: nat)
    requires ts != []
    ensures var n := |ts| - 1; |Young(ts, now, window)| == |Young(ts[..n], now, window)| + if now - ts[n] < window then 1 else 0
  {
    var n := |ts| - 1;
    var before := Young(ts[..n], now, window);
    assert Young(ts, now, window) == if now - ts[n] < window then before + {n} else before;
  }

  /** That is what the saturating comparison keeps. */
  lemma {:induction false} RecentCount(ts: seq<int>, now: int, window: nat)
    requires window > 0
    ensures |Recent(ts, now, window)| == |Young(ts, now, window)|
  {
    if ts == [] {
      assert Young(ts, now, window) == {};
    } else {
      RecentCount(ts[..|ts| - 1], now, window);
      OneMoreYoung(ts, now, window);
    }
  }

  // ---- The tracker ----

  class ActionTracker {
    const cap: nat
    const window: nat
    var timestamps: seq<int>

    constructor (cap: nat, window: nat)
      ensures this.cap == cap && this.window == window && timestamps == []
    {
      this.cap, this.window, timestamps := cap, window, [];
    }

    /** Lines 133-139: the production window is one hour. */
    constructor Hourly(cap: nat)
      ensures this.cap == cap && window == 3600 && timestamps == []
    {
      this.cap, window, timestamps := cap, 3600, [];
    }

    method Prune(now: int)
      modifies this
      ensures timestamps == Recent(old(timestamps), now, window)
    {
      var kept: seq<int> := [];
      for i := 0 to |timestamps|
        invariant timestamps == old(timestamps)
        invariant kept == Recent(timestamps[..i], now, window)
      {
        RecentSnoc(timestamps[..i], timestamps[i], now, window);
        assert timestamps[..i + 1] == timestamps[..i] + [timestamps[i]];
        if Elapsed(now, timestamps[i]) < window {
          kept := kept + [timestamps[i]];
        }
      }
      assert timestamps[..|timestamps|] == timestamps;
      timestamps := kept;
    }

    /** Lines 151-158; true when the action is admitted. */
    method Record(now: int) returns (admitted: bool)
      modifies this
      ensures (timestamps, Admitted(admitted)) == Step(cap, window, old(timestamps), Op.Record(now))
    {
      Prune(now);
      if |timestamps| >= cap {
        return false;
      }
      timestamps := timestamps + [now];
      return true;
    }

    method Count(now: int) returns (n: nat)
      modifies this
      ensures (timestamps, Counted(n)) == Step(cap, window, old(timestamps), Op.Count(now))
    {
      Prune(now);
      n := |timestamps|;
    }
  }

  // ---- Runs, against a tracker that forgets nothing ----

  datatype Op = Record(now: int) | Count(now: int)
  datatype Reply = Admitted(yes: bool) | Counted(n: nat)

  /** One call on the pruned list. */
  function Step(cap: nat, window: nat, ts: seq<int>, op: Op): (seq<int>, Reply) {
    var kept := Recent(ts, op.now, window);
    match op
    case Record(now) => if |kept| >= cap then (kept, Admitted(false)) else (kept + [now], Admitted(true))
    case Count(_) => (kept, Counted(|kept|))
  }

  /** One call on the full history of admitted actions: refused iff `cap` of them lie in the window. */
  ghost function FullStep(cap: nat, window: nat, history: seq<int>, op: Op): (seq<int>, Reply) {
    var recent := |Recent(history, op.now, window)|;
    match op
    case Record(now) => if recent >= cap then (history, Admitted(false)) else (history + [now], Admitted(true))
    case Count(_) => (history, Counted(recent))
  }

  function Replies(cap: nat, window: nat, ts: seq<int>, ops: seq<Op>): seq<Reply>
    decreases |ops|
  {
    if ops == [] then []
    else
      var (ts', reply) := Step(cap, window, ts, ops[0]);
      [reply] + Replies(cap, window, ts', ops[1..])
  }

  ghost function FullReplies(cap: nat, window: nat, history: seq<int>, ops: seq<Op>): seq<Reply>
    decreases |ops|
  {
    if ops == [] then []
    else
      var (history', reply) := FullStep(cap, window, history, ops[0]);
      [reply] + FullReplies(cap, window, history', ops[1..])
  }

  ghost function FullHistory(cap: nat, window: nat, history: seq<int>, ops: seq<Op>): seq<int>
    decreases |ops|
  {
    if ops == [] then history else FullHistory(cap, window, FullStep(cap, window, history, ops[0]).0, ops[1..])
  }

  /** The clock never goes back. */
  ghost predicate Monotone(start: int, ops: seq<Op>)
    decreases |ops|
  {
    ops == [] || (start <= ops[0].now && Monotone(ops[0].now, ops[1..]))
  }

  /** From `start` on, the pruned list and the history look alike through the window. */
  ghost predicate Agrees(window: nat, start: int, ts: seq<int>, history: seq<int>) {
    forall now :: start <= now ==> Recent(ts, now, window) == Recent(history, now, window)
  }

  lemma StepAgrees(cap: nat, window: nat, start: int, ts: seq<int>, history: seq<int>, op: Op)
    requires Agrees(window, start, ts, history) && start <= op.now
    ensures Step(cap, window, ts, op).1 == FullStep(cap, window, history, op).1
    ensures Agrees(window, op.now, Step(cap, window, ts, op).0, FullStep(cap, window, history, op).0)
  {
    var kept := Recent(ts, op.now, window);
    forall now | op.now <= now
      ensures Recent(Step(cap, window, ts, op).0, now, window) == Recent(FullStep(cap, window, history, op).0, now, window)
    {
      PruneTwice(ts, op.now, now, window);
      RecentSnoc(kept, op.now, now, window);
      RecentSnoc(history, op.now, now, window);
    }
  }

  /** Under a monotone clock the pruned tracker answers every call of every run exactly as the tracker
      that keeps the whole history. */
  lemma {:induction false} PrunedRefinesFull(cap: nat, window: nat, start: int, ts: seq<int>, history: seq<int>, ops: seq<Op>)
    requires Agrees(window, start, ts, history) && Monotone(start, ops)
    ensures Replies(cap, window, ts, ops) == FullReplies(cap, window, history, ops)
    decreases |ops|
  {
    if ops != [] {
      StepAgrees(cap, window, start, ts, history, ops[0]);
      PrunedRefinesFull(cap, window, ops[0].now, Step(cap, window, ts, ops[0]).0, FullStep(cap, window, history, ops[0]).0, ops[1..]);
    }
  }

  /** Admitted actions with `from <= t < from + window`. */
  ghost function InInterval(history: seq<int>, from: int, window: nat): nat {
    if history == [] then 0
    else
      var n := |history| - 1;
      InInterval(history[..n], from, window) + if from <= history[n] < from + window then 1 else 0
  }

  /** Every action was admitted with room to spare. */
  ghost predicate EachHadRoom(cap: nat, window: nat, history: seq<int>) {
    forall i :: 0 <= i < |history| ==> |Recent(history[..i], history[i], window)| < cap
  }

  lemma {:induction false} IntervalIsRecent(history: seq<int>, from: int, now: int, window: nat)
    requires from <= now < from + window
    ensures InInterval(history, from, window) <= |Recent(history, now, window)|
  {
    if history != [] { IntervalIsRecent(history[..|history| - 1], from, now, window); }
  }

  lemma {:induction false} IntervalBounded(cap: nat, window: nat, history: seq<int>, from: int)
    requires EachHadRoom(cap, window, history)
    ensures InInterval(history, from, window) <= cap
  {
    if history != [] {
      var n := |history| - 1;
      var before := history[..n];
      if from <= history[n] < from + window {
        IntervalIsRecent(before, from, history[n], window);
      } else {
        forall i | 0 <= i < n ensures |Recent(before[..i], before[i], window)| < cap {
          assert before[..i] == history[..i];
        }
        IntervalBounded(cap, window, before, from);
      }
    }
  }

  lemma {:induction false} HistoryHadRoom(cap: nat, window: nat, history: seq<int>, ops: seq<Op>)
    requires EachHadRoom(cap, window, history)
    ensures EachHadRoom(cap, window, FullHistory(cap, window, history, ops))
    decreases |ops|
  {
    if ops != [] {
      var history' := FullStep(cap, window, history, ops[0]).0;
      forall i | 0 <= i < |history'| ensures |Recent(history'[..i], history'[i], window)| < cap {
        assert history'[..i] == history[..i];
        if i == |history| { assert history[..i] == history; }
      }
      HistoryHadRoom(cap, window, history', ops[1..]);
    }
  }

  /** The times of the admitted actions of a run. */
  function Admissions(ops: seq<Op>, replies: seq<Reply>): seq<int>
    requires |ops| == |replies|
  {
    if ops == [] then []
    else (if replies[0] == Admitted(true) then [ops[0].now] else []) + Admissions(ops[1..], replies[1..])
  }

  lemma {:induction false} HistoryIsAdmissions(cap: nat, window: nat, history: seq<int>, ops: seq<Op>)
    ensures |FullReplies(cap, window, history, ops)| == |ops|
    ensures FullHistory(cap, window, history, ops) == history + Admissions(ops, FullReplies(cap, window, history, ops))
    decreases |ops|
  {
    if ops != [] {
      var (history', reply) := FullStep(cap, window, history, ops[0]);
      HistoryIsAdmissions(cap, window, history', ops[1..]);
      assert FullReplies(cap, window, history, ops)[1..] == FullReplies(cap, window, history', ops[1..]);
    }
  }

  /** Over any run under a monotone clock, every interval one window long contains at most `cap`
      admitted actions. */
  lemma RateBounded(cap: nat, window: nat, start: int, ops: seq<Op>, from: int)
    requires Monotone(start, ops)
    ensures |Replies(cap, window, [], ops)| == |ops|
    ensures InInterval(Admissions(ops, Replies(cap, window, [], ops)), from, window) <= cap
  {
    PrunedRefinesFull(cap, window, start, [], [], ops);
    HistoryIsAdmissions(cap, window, [], ops);
    HistoryHadRoom(cap, window, [], ops);
    IntervalBounded(cap, window, FullHistory(cap, window, [], ops), from);
    assert [] + Admissions(ops, FullReplies(cap, window, [], ops)) == Admissions(ops, FullReplies(cap, window, [], ops));
  }

  // ---- Admission over raw times ----

  /** The calls before `k` that were admitted less than one window before `now`. */
  ghost function AdmittedBefore(ops: seq<Op>, replies: seq<Reply>, k: nat, now: int, window: nat): set<int>
    requires k <= |ops| == |replies|
  {
    set i | 0 <= i < k && replies[i] == Admitted(true) && now - ops[i].now < window
  }

  lemma {:induction false} RepliesAppend(cap: nat, window: nat, history: seq<int>, ops: seq<Op>, k: nat)
    requires k < |ops|
    ensures |FullReplies(cap, window, history, ops)| == |ops|
    ensures |FullReplies(cap, window, history, ops[..k])| == k
    ensures FullReplies(cap, window, history, ops)[..k] == FullReplies(cap, window, history, ops[..k])
    ensures FullReplies(cap, window, history, ops)[k] == FullStep(cap, window, FullHistory(cap, window, history, ops[..k]), ops[k]).1
    decreases k
  {
    HistoryIsAdmissions(cap, window, history, ops);
    HistoryIsAdmissions(cap, window, history, ops[..k]);
    if k > 0 {
      var history' := FullStep(cap, window, history, ops[0]).0;
      assert ops[..k][1..] == ops[1..][..k - 1];
      RepliesAppend(cap, window, history', ops[1..], k - 1);
    }
  }

  lemma {:induction false} AdmissionsSnoc(ops: seq<Op>, replies: seq<Reply>)
    requires |ops| == |replies| > 0
    ensures var n := |ops| - 1;
            Admissions(ops, replies) == Admissions(ops[..n], replies[..n]) + if replies[n] == Admitted(true) then [ops[n].now] else []
  {
    var n := |ops| - 1;
    if n > 0 {
      AdmissionsSnoc(ops[1..], replies[1..]);
      assert ops[1..][..n - 1] == ops[..n][1..] && replies[1..][..n - 1] == replies[..n][1..];
    } else {
      assert Admissions(ops[1..], replies[1..]) == [] && Admissions(ops[..n], replies[..n]) == [];
    }
  }

  lemma OneMoreAdmitted(ops: seq<Op>, replies: seq<Reply>, k: nat, now: int, window: nat)
    requires k < |ops| == |replies|
    ensures |AdmittedBefore(ops, replies, k + 1, now, window)|
            == |AdmittedBefore(ops, replies, k, now, window)|
               + if replies[k] == Admitted(true) && now - ops[k].now < window then 1 else 0
  {
    var was := AdmittedBefore(ops, replies, k, now, window);
    assert AdmittedBefore(ops, replies, k + 1, now, window)
        == if replies[k] == Admitted(true) && now - ops[k].now < window then was + {k} else was;
  }

  lemma {:induction false} RecentAdmissions(ops: seq<Op>, replies: seq<Reply>, k: nat, now: int, window: nat)
    requires k <= |ops| == |replies| && window > 0
    ensures |Recent(Admissions(ops[..k], replies[..k]), now, window)| == |AdmittedBefore(ops, replies, k, now, window)|
  {
    if k > 0 {
      RecentAdmissions(ops, replies, k - 1, now, window);
      OneMoreAdmitted(ops, replies, k - 1, now, window);
      AdmissionsSnoc(ops[..k], replies[..k]);
      assert ops[..k][..k - 1] == ops[..k - 1] && replies[..k][..k - 1] == replies[..k - 1];
      var before := Admissions(ops[..k - 1], replies[..k - 1]);
      if replies[k - 1] == Admitted(true) {
        RecentSnoc(before, ops[k - 1].now, now, window);
      } else {
        assert before + [] == before;
      }
    } else {
      assert AdmittedBefore(ops, replies, 0, now, window) == {};
    }
  }

  /** Over any run under a monotone clock, an action is admitted exactly when fewer than `cap` earlier ones
      were admitted less than one window before it, and a count says how many those are. */
  lemma AdmittedIff(cap: nat, window: nat, start: int, ops: seq<Op>, k: nat)
    requires Monotone(start, ops) && k < |ops| && window > 0
    ensures |Replies(cap, window, [], ops)| == |ops|
    ensures var replies := Replies(cap, window, [], ops);
            var recent := |AdmittedBefore(ops, replies, k, ops[k].now, window)|;
            replies[k] == if ops[k].Record? then Admitted(recent < cap) else Counted(recent)
  {
    PrunedRefinesFull(cap, window, start, [], [], ops);
    RepliesAppend(cap, window, [], ops, k);
    HistoryIsAdmissions(cap, window, [], ops[..k]);
    var replies := FullReplies(cap, window, [], ops);
    RecentAdmissions(ops, replies, k, ops[k].now, window);
    assert [] + Admissions(ops[..k], replies[..k]) == Admissions(ops[..k], replies[..k]);
  }
}
