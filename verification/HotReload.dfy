/** Configuration hot-reload (crates/domain/src/config_hotreload.rs): diff two snapshots, classify each
    changed path through a prefix-ordered rule table, and bump the skills version. */
module HotReload {
  import opened Sorting

  type Snapshot = map<string, string>

  // ---- diff_config ----

  ghost predicate Differs(old_: Snapshot, new_: Snapshot, path: string) {
    (path in old_ || path in new_) && !(path in old_ && path in new_ && old_[path] == new_[path])
  }

  ghost predicate StrictlySorted(s: seq<string>) {
    forall i, j :: 0 <= i < j < |s| ==> StringLeq(s[i], s[j]) && s[i] != s[j]
  }

  /** `Vec::dedup`: equal neighbours collapse. */
  function Dedup(s: seq<string>): seq<string> {
    if |s| < 2 then s
    else if s[0] == s[1] then Dedup(s[1..])
    else [s[0]] + Dedup(s[1..])
  }

  lemma {:induction false} DedupSorted(s: seq<string>)
    requires Sorted(s, StringLeq)
    ensures StrictlySorted(Dedup(s)) && forall x :: x in Dedup(s) <==> x in s
    ensures s != [] ==> Dedup(s) != [] && Dedup(s)[0] == s[0]
  {
    if |s| >= 2 {
      DedupSorted(s[1..]);
      var d := Dedup(s[1..]);
      assert s == [s[0]] + s[1..];
      if s[0] != s[1] {
        forall j | 0 <= j < |d| ensures StringLeq(s[0], d[j]) && s[0] != d[j] {
          assert d[j] in s[1..];
          StringLeqTotal(s[0], s[1]);
          assert j > 0 ==> StringLeq(d[0], d[j]);
        }
      }
    }
  }

  /** Lines 22-38. */
  method DiffConfig(old_: Snapshot, new_: Snapshot) returns (changed: seq<string>)
    ensures StrictlySorted(changed)
    ensures forall p :: p in changed <==> Differs(old_, new_, p)
  {
    changed := [];
    var left := old_.Keys;
    while left != {}
      invariant left <= old_.Keys
      invariant forall p :: p in changed <==> p in old_ && p !in left && Differs(old_, new_, p)
    {
      var path := AnyOf(left);
      if !(path in new_ && new_[path] == old_[path]) {
        changed := changed + [path];
      }
      left := left - {path};
    }
    left := new_.Keys;
    while left != {}
      invariant left <= new_.Keys
      invariant forall p :: p in changed <==> (p in old_ || p !in left) && Differs(old_, new_, p)
    {
      var path := AnyOf(left);
      if path !in old_ {
        changed := changed + [path];
      }
      left := left - {path};
    }
    StringOrder();
    ghost var unsorted := changed;
    changed := Sort(changed, StringLeq);
    DedupSorted(changed);
    forall p ensures p in changed <==> p in unsorted {
      assert p in changed <==> p in multiset(changed);
      assert p in unsorted <==> p in multiset(unsorted);
    }
    changed := Dedup(changed);
  }

  lemma {:induction false} StrictlySortedUnique(a: seq<string>, b: seq<string>)
    requires StrictlySorted(a) && StrictlySorted(b) && forall x :: x in a <==> x in b
    ensures a == b
  {
    assert a != [] ==> a[0] in a;
    assert b != [] ==> b[0] in b;
    if a != [] {
      assert a[0] in b && b[0] in a;
      assert a[0] == b[0] by { StringLeqTotal(a[0], b[0]); }
      assert forall x :: x in a[1..] <==> x in a && x != a[0];
      assert forall x :: x in b[1..] <==> x in b && x != b[0];
      StrictlySortedUnique(a[1..], b[1..]);
      assert a == [a[0]] + a[1..] && b == [b[0]] + b[1..];
    }
  }

  /** The diff is determined by the two snapshots, and swapping them does not change it. */
  lemma DiffSymmetric(old_: Snapshot, new_: Snapshot, there: seq<string>, back: seq<string>)
    requires StrictlySorted(there) && forall p :: p in there <==> Differs(old_, new_, p)
    requires StrictlySorted(back) && forall p :: p in back <==> Differs(new_, old_, p)
    ensures there == back
  {
    StrictlySortedUnique(there, back);
  }

  // ---- Rules ----

  datatype Kind = Restart | Hot | Quiet

  datatype Action =
    | ReloadHooks | RestartCron | RestartHeartbeat | RestartHealthMonitor | ReloadPlugins | DisposeMcpRuntimes
    | RestartChannel(id: string)

  datatype Rule = Rule(prefix: string, kind: Kind, actions: seq<Action>)

  /** Lines 80-82: an exact match, or a match at a dot. */
  predicate PrefixMatches(prefix: string, path: string) {
    path == prefix || prefix + "." <= path
  }

  const BUILTIN_RULES: seq<Rule> := [
    Rule("daemon.reload", Quiet, []),
    Rule("daemon.remote", Quiet, []),
    Rule("diagnostics.stuckSessionWarnMs", Quiet, []),
    Rule("diagnostics.stuckSessionAbortMs", Quiet, []),
    Rule("diagnostics.memoryPressureSnapshot", Hot, []),
    Rule("hooks.gmail", Hot, [RestartHeartbeat]),
    Rule("hooks", Hot, [ReloadHooks]),
    Rule("agents.defaults.heartbeat", Hot, [RestartHeartbeat]),
    Rule("agents.defaults.models", Hot, [RestartHeartbeat]),
    Rule("agents.defaults.model", Hot, [RestartHeartbeat]),
    Rule("models.pricing", Restart, []),
    Rule("models", Hot, []),
    Rule("skills", Hot, []),
    Rule("mcp", Hot, [DisposeMcpRuntimes]),
    Rule("plugins", Hot, [ReloadPlugins]),
    Rule("cron", Hot, [RestartCron]),
    Rule("scheduler", Hot, [RestartCron])]

  /** The first rule that matches, or the number of rules. */
  function FirstMatch(rules: seq<Rule>, path: string): (i: nat)
    ensures i <= |rules|
    ensures i < |rules| ==> PrefixMatches(rules[i].prefix, path)
    ensures forall k :: 0 <= k < i ==> !PrefixMatches(rules[k].prefix, path)
  {
    if rules == [] || PrefixMatches(rules[0].prefix, path) then 0
    else
      var i := 1 + FirstMatch(rules[1..], path);
      assert forall k :: 1 <= k < i ==> rules[k] == rules[1..][k - 1];
      i
  }

  /** Of two prefixes matching one path, the shorter matches the longer. */
  lemma MatchesNest(p: string, q: string, path: string)
    requires PrefixMatches(p, path) && PrefixMatches(q, path) && |p| <= |q|
    ensures PrefixMatches(p, q)
  {
    assert p == path[..|p|] && q == path[..|q|];
    if |p| < |q| {
      assert path[|p|] == '.' && q[|p|] == '.';
      assert (p + ".") == q[..|p| + 1];
    }
  }

  /** No rule's prefix hides a later, more specific one. */
  ghost predicate SpecificFirst(rules: seq<Rule>) {
    forall i, j :: 0 <= i < j < |rules| ==> !PrefixMatches(rules[i].prefix, rules[j].prefix)
  }

  /** With specific prefixes first, the first match is the strictly longest match. */
  lemma FirstIsLongest(rules: seq<Rule>, path: string, k: nat)
    requires SpecificFirst(rules) && k < |rules| && PrefixMatches(rules[k].prefix, path)
    ensures FirstMatch(rules, path) < |rules|
    ensures k != FirstMatch(rules, path) ==> |rules[k].prefix| < |rules[FirstMatch(rules, path)].prefix|
  {
    var i := FirstMatch(rules, path);
    assert i <= k;
    if i < k && |rules[i].prefix| <= |rules[k].prefix| {
      MatchesNest(rules[i].prefix, rules[k].prefix, path);
    }
  }

  /** The length of a prefix, and the only places it may have a dot. */
  predicate HasShape(s: string, len: nat, dot1: int, dot2: int) {
    |s| == len && forall k :: 0 <= k < len && s[k] == '.' ==> k == dot1 || k == dot2
  }

  /** The shape of the i-th built-in prefix; -1 stands for no dot. */
  predicate ShapeOf(i: nat, s: string) {
    if i < 2 then HasShape(s, 13, 6, 6)
    else if i < 5 then HasShape(s, [30, 31, 34][i - 2], 11, 11)
    else if i == 5 then HasShape(s, 11, 5, 5)
    else if i == 6 then HasShape(s, 5, -1, -1)
    else if i < 10 then HasShape(s, [25, 22, 21][i - 7], 6, 15)
    else if i == 10 then HasShape(s, 14, 6, 6)
    else i < 17 && HasShape(s, [6, 6, 3, 7, 4, 9][i - 11], -1, -1)
  }

  lemma NestingNeedsDot(p: string, q: string)
    requires PrefixMatches(p, q) && p != q
    ensures |p| < |q| && q[|p|] == '.'
  {
    assert (p + ".")[|p|] == '.';
  }

  /** Any table of these shapes has its specific prefixes first. */
  lemma ShapesNest(rules: seq<Rule>)
    requires |rules| == 17 && forall i :: 0 <= i < 17 ==> ShapeOf(i, rules[i].prefix)
    requires rules[0].prefix != rules[1].prefix && rules[11].prefix != rules[12].prefix
    ensures SpecificFirst(rules)
  {
    forall i, j | 0 <= i < j < 17 ensures !PrefixMatches(rules[i].prefix, rules[j].prefix) {
      var p, q := rules[i].prefix, rules[j].prefix;
      assert ShapeOf(i, p) && ShapeOf(j, q);
      assert p != q;
      if PrefixMatches(p, q) {
        NestingNeedsDot(p, q);
        assert false;
      }
    }
  }

  lemma LongPrefixShapes()
    ensures HasShape("daemon.reload", 13, 6, 6) && HasShape("daemon.remote", 13, 6, 6)
    ensures HasShape("diagnostics.stuckSessionWarnMs", 30, 11, 11) && HasShape("diagnostics.stuckSessionAbortMs", 31, 11, 11)
    ensures HasShape("diagnostics.memoryPressureSnapshot", 34, 11, 11)
    ensures "daemon.reload" != "daemon.remote"
  {
    assert "daemon.reload"[9] != "daemon.remote"[9];
  }

  lemma ShortPrefixShapes()
    ensures HasShape("hooks.gmail", 11, 5, 5) && HasShape("hooks", 5, -1, -1)
    ensures HasShape("agents.defaults.heartbeat", 25, 6, 15) && HasShape("agents.defaults.models", 22, 6, 15)
    ensures HasShape("agents.defaults.model", 21, 6, 15)
    ensures HasShape("models.pricing", 14, 6, 6) && HasShape("models", 6, -1, -1) && HasShape("skills", 6, -1, -1)
    ensures HasShape("mcp", 3, -1, -1) && HasShape("plugins", 7, -1, -1) && HasShape("cron", 4, -1, -1)
    ensures HasShape("scheduler", 9, -1, -1)
    ensures "models" != "skills"
  {
    assert "models"[0] != "skills"[0];
  }

  lemma BuiltinSpecificFirst()
    ensures SpecificFirst(BUILTIN_RULES)
  {
    LongPrefixShapes();
    ShortPrefixShapes();
    ShapesNest(BUILTIN_RULES);
  }

  /** For every path the built-in table's first match is its longest match. */
  lemma BuiltinFirstIsLongest(path: string, k: nat)
    requires k < |BUILTIN_RULES| && PrefixMatches(BUILTIN_RULES[k].prefix, path)
    ensures var i := FirstMatch(BUILTIN_RULES, path);
            i < |BUILTIN_RULES| && (k == i || |BUILTIN_RULES[k].prefix| < |BUILTIN_RULES[i].prefix|)
  {
    BuiltinSpecificFirst();
    FirstIsLongest(BUILTIN_RULES, path, k);
  }

  // ---- The plan ----

  function UpToDot(s: string): string {
    if s == "" || s[0] == '.' then "" else [s[0]] + UpToDot(s[1..])
  }

  /** Lines 142-167: the first matching rule, else a channel, else restart. */
  function Classify(rules: seq<Rule>, path: string): (Kind, seq<Action>) {
    var i := FirstMatch(rules, path);
    if i < |rules| then (rules[i].kind, rules[i].actions)
    else if "channels." <= path then (Hot, [RestartChannel(UpToDot(path[|"channels."|..]))])
    else (Restart, [])
  }

  /** A prefix matches at a dot, or as a whole. */
  lemma MatchesAtDot(prefix: string, path: string)
    ensures PrefixMatches(prefix, path)
            <==> |prefix| <= |path| && path[..|prefix|] == prefix && (|path| == |prefix| || path[|prefix|] == '.')
  {
    if |prefix| < |path| && path[..|prefix|] == prefix && path[|prefix|] == '.' {
      assert prefix + "." == path[..|prefix| + 1];
    }
    if prefix + "." <= path {
      assert path[..|prefix| + 1] == prefix + ".";
      assert path[..|prefix|] == path[..|prefix| + 1][..|prefix|];
    }
  }

  /** A path no rule matches restarts the daemon, unless it names a channel: then that channel is
      restarted, its id being what stands before the next dot. */
  lemma UnmatchedIs(rules: seq<Rule>, path: string)
    requires forall i :: 0 <= i < |rules| ==> !PrefixMatches(rules[i].prefix, path)
    ensures !("channels." <= path) ==> Classify(rules, path) == (Restart, [])
    ensures forall id: string :: (forall i :: 0 <= i < |id| ==> id[i] != '.')
                                 && (path == "channels." + id || "channels." + id + "." <= path) ==>
              Classify(rules, path) == (Hot, [RestartChannel(id)])
  {
    assert FirstMatch(rules, path) == |rules|;
    forall id: string | (forall i :: 0 <= i < |id| ==> id[i] != '.')
                        && (path == "channels." + id || "channels." + id + "." <= path)
      ensures Classify(rules, path) == (Hot, [RestartChannel(id)])
    {
      var rest := path[|"channels."|..];
      if path == "channels." + id {
        assert rest == id;
      } else {
        assert path[..|"channels." + id + "."|] == "channels." + (id + ".");
        assert rest[..|id| + 1] == id + ".";
      }
      UpToDotIs(rest, id);
    }
  }

  lemma {:induction false} UpToDotIs(s: string, id: string)
    requires (forall i :: 0 <= i < |id| ==> id[i] != '.') && (s == id || id + "." <= s)
    ensures UpToDot(s) == id
  {
    if id == "" {
      assert s == "" || s[0] == '.';
    } else {
      assert s[0] == id[0] && id == [id[0]] + id[1..];
      if s != id {
        assert s[..|id| + 1] == id + ".";
        assert s[1..][..|id|] == id[1..] + ".";
      }
      UpToDotIs(s[1..], id[1..]);
    }
  }

  /** A path some rule matches gets the kind and actions of the longest such rule of the built-in table. */
  lemma BuiltinClassified(path: string, k: nat)
    requires k < |BUILTIN_RULES| && PrefixMatches(BUILTIN_RULES[k].prefix, path)
    requires forall i :: 0 <= i < |BUILTIN_RULES| && PrefixMatches(BUILTIN_RULES[i].prefix, path) ==>
               |BUILTIN_RULES[i].prefix| <= |BUILTIN_RULES[k].prefix|
    ensures Classify(BUILTIN_RULES, path) == (BUILTIN_RULES[k].kind, BUILTIN_RULES[k].actions)
  {
    BuiltinFirstIsLongest(path, k);
  }

  /** The path that is a built-in prefix itself gets that rule. */
  lemma OwnPrefix(k: nat, path: string, kind: Kind, actions: seq<Action>)
    requires k < |BUILTIN_RULES| && BUILTIN_RULES[k] == Rule(path, kind, actions)
    ensures Classify(BUILTIN_RULES, path) == (kind, actions)
  {
    forall i | 0 <= i < |BUILTIN_RULES| && PrefixMatches(BUILTIN_RULES[i].prefix, path)
      ensures |BUILTIN_RULES[i].prefix| <= |path|
    {
      MatchesAtDot(BUILTIN_RULES[i].prefix, path);
    }
    BuiltinClassified(path, k);
  }

  /** What each built-in path asks for, spelled out: nothing, */
  lemma QuietPaths(path: string)
    ensures path == "daemon.reload" || path == "daemon.remote"
            || path == "diagnostics.stuckSessionWarnMs" || path == "diagnostics.stuckSessionAbortMs" ==>
              Classify(BUILTIN_RULES, path) == (Quiet, [])
  {
    if path == "daemon.reload" { OwnPrefix(0, path, Quiet, []); }
    if path == "daemon.remote" { OwnPrefix(1, path, Quiet, []); }
    if path == "diagnostics.stuckSessionWarnMs" { OwnPrefix(2, path, Quiet, []); }
    if path == "diagnostics.stuckSessionAbortMs" { OwnPrefix(3, path, Quiet, []); }
  }

  /** a restart, or a reload without an action, */
  lemma PlainPaths(path: string)
    ensures path == "models.pricing" ==>
              Classify(BUILTIN_RULES, path) == (Restart, [])
    ensures path == "diagnostics.memoryPressureSnapshot" || path == "models" || path == "skills" ==>
              Classify(BUILTIN_RULES, path) == (Hot, [])
  {
    if path == "models.pricing" { OwnPrefix(10, path, Restart, []); }
    if path == "diagnostics.memoryPressureSnapshot" { OwnPrefix(4, path, Hot, []); }
    if path == "models" { OwnPrefix(11, path, Hot, []); }
    if path == "skills" { OwnPrefix(12, path, Hot, []); }
  }

  /** a new heartbeat, */
  lemma HeartbeatPaths(path: string)
    ensures path == "hooks.gmail" || path == "agents.defaults.heartbeat"
            || path == "agents.defaults.models" || path == "agents.defaults.model" ==>
              Classify(BUILTIN_RULES, path) == (Hot, [RestartHeartbeat])
  {
    if path == "hooks.gmail" { OwnPrefix(5, path, Hot, [RestartHeartbeat]); }
    if path == "agents.defaults.heartbeat" { OwnPrefix(7, path, Hot, [RestartHeartbeat]); }
    if path == "agents.defaults.models" { OwnPrefix(8, path, Hot, [RestartHeartbeat]); }
    if path == "agents.defaults.model" { OwnPrefix(9, path, Hot, [RestartHeartbeat]); }
  }

  /** or an action of its own. */
  lemma ActionPaths(path: string)
    ensures path == "hooks" ==>
              Classify(BUILTIN_RULES, path) == (Hot, [ReloadHooks])
    ensures path == "mcp" ==>
              Classify(BUILTIN_RULES, path) == (Hot, [DisposeMcpRuntimes])
    ensures path == "plugins" ==>
              Classify(BUILTIN_RULES, path) == (Hot, [ReloadPlugins])
    ensures path == "cron" || path == "scheduler" ==>
              Classify(BUILTIN_RULES, path) == (Hot, [RestartCron])
  {
    if path == "hooks" { OwnPrefix(6, path, Hot, [ReloadHooks]); }
    if path == "mcp" { OwnPrefix(13, path, Hot, [DisposeMcpRuntimes]); }
    if path == "plugins" { OwnPrefix(14, path, Hot, [ReloadPlugins]); }
    if path == "cron" { OwnPrefix(15, path, Hot, [RestartCron]); }
    if path == "scheduler" { OwnPrefix(16, path, Hot, [RestartCron]); }
  }

  datatype Plan = Plan(
    changedPaths: seq<string>, restartDaemon: bool, restartReasons: seq<string>, hotReasons: seq<string>,
    actions: seq<Action>, noopPaths: seq<string>)

  /** The paths that `kindOf` maps to `kind`, in order. */
  function Select(paths: seq<string>, kindOf: string -> Kind, kind: Kind): seq<string> {
    if paths == [] then []
    else
      var n := |paths| - 1;
      Select(paths[..n], kindOf, kind) + if kindOf(paths[n]) == kind then [paths[n]] else []
  }

  function KindOf(rules: seq<Rule>): string -> Kind { path => Classify(rules, path).0 }

  function OfKind(rules: seq<Rule>, paths: seq<string>, kind: Kind): seq<string> {
    Select(paths, KindOf(rules), kind)
  }

  function AddNew(actions: seq<Action>, more: seq<Action>): seq<Action>
    decreases |more|
  {
    if more == [] then actions
    else AddNew(if more[0] in actions then actions else actions + [more[0]], more[1..])
  }

  function ActionsOf(rules: seq<Rule>, paths: seq<string>): seq<Action> {
    if paths == [] then []
    else
      var n := |paths| - 1;
      var before := ActionsOf(rules, paths[..n]);
      var (kind, actions) := Classify(rules, paths[n]);
      if kind == Hot then AddNew(before, actions) else before
  }

  function PlanFor(rules: seq<Rule>, paths: seq<string>): Plan {
    Plan(paths, OfKind(rules, paths, Restart) != [], OfKind(rules, paths, Restart), OfKind(rules, paths, Hot),
         ActionsOf(rules, paths), OfKind(rules, paths, Quiet))
  }

  /** What one more path adds to a plan. */
  function Extended(plan: Plan, path: string, kind: Kind, actions: seq<Action>): Plan {
    match kind
    case Restart => plan.(restartDaemon := true, restartReasons := plan.restartReasons + [path])
    case Hot => plan.(hotReasons := plan.hotReasons + [path], actions := AddNew(plan.actions, actions))
    case Quiet => plan.(noopPaths := plan.noopPaths + [path])
  }

  ghost predicate PlansFirst(plan: Plan, rules: seq<Rule>, paths: seq<string>, i: nat)
    requires i <= |paths|
  {
    plan == PlanFor(rules, paths[..i]).(changedPaths := paths)
  }

  lemma PlanSnoc(plan: Plan, rules: seq<Rule>, paths: seq<string>, i: nat)
    requires i < |paths| && PlansFirst(plan, rules, paths, i)
    ensures PlansFirst(Extended(plan, paths[i], Classify(rules, paths[i]).0, Classify(rules, paths[i]).1), rules, paths, i + 1)
  {
    var before, kind := paths[..i], Classify(rules, paths[i]).0;
    assert paths[..i + 1][..i] == before;
    assert forall k :: OfKind(rules, paths[..i + 1], k) == OfKind(rules, before, k) + if kind == k then [paths[i]] else [];
  }

  /** Lines 136-170. */
  method BuildPlan(changedPaths: seq<string>, rules: seq<Rule>) returns (plan: Plan)
    ensures plan == PlanFor(rules, changedPaths)
  {
    plan := Plan(changedPaths, false, [], [], [], []);
    for i := 0 to |changedPaths|
      invariant PlansFirst(plan, rules, changedPaths, i)
    {
      var path := changedPaths[i];
      PlanSnoc(plan, rules, changedPaths, i);
      var (kind, actions) := Classify(rules, path);
      match kind
      case Restart =>
        plan := plan.(restartDaemon := true, restartReasons := plan.restartReasons + [path]);
      case Hot =>
        var merged := PushNew(plan.actions, actions);
        plan := plan.(hotReasons := plan.hotReasons + [path], actions := merged);
      case Quiet =>
        plan := plan.(noopPaths := plan.noopPaths + [path]);
    }
    assert changedPaths[..|changedPaths|] == changedPaths;
  }

  /** Lines 155-159. */
  method PushNew(actions: seq<Action>, more: seq<Action>) returns (merged: seq<Action>)
    ensures merged == AddNew(actions, more)
  {
    merged := actions;
    for i := 0 to |more|
      invariant AddNew(actions, more) == AddNew(merged, more[i..])
    {
      if more[i] !in merged {
        merged := merged + [more[i]];
      }
      assert more[i..][1..] == more[i + 1..];
    }
  }

  lemma {:induction false} SelectCount(paths: seq<string>, kindOf: string -> Kind, kind: Kind, path: string)
    ensures multiset(Select(paths, kindOf, kind))[path] == if kindOf(path) == kind then multiset(paths)[path] else 0
  {
    if paths != [] {
      var n := |paths| - 1;
      SelectCount(paths[..n], kindOf, kind, path);
      assert paths == paths[..n] + [paths[n]];
    }
  }

  lemma SelectPartitions(paths: seq<string>, kindOf: string -> Kind)
    ensures multiset(paths)
            == multiset(Select(paths, kindOf, Restart)) + multiset(Select(paths, kindOf, Hot)) + multiset(Select(paths, kindOf, Quiet))
  {
    var r, h, q := Select(paths, kindOf, Restart), Select(paths, kindOf, Hot), Select(paths, kindOf, Quiet);
    forall x ensures multiset(paths)[x] == multiset(r)[x] + multiset(h)[x] + multiset(q)[x] {
      SelectCount(paths, kindOf, Restart, x);
      SelectCount(paths, kindOf, Hot, x);
      SelectCount(paths, kindOf, Quiet, x);
    }
    SumByCounts(multiset(paths), multiset(r), multiset(h), multiset(q));
  }

  /** Every changed path lands in exactly one of restart, hot and no-op, as often as it was listed. */
  lemma {:induction false} PlanPartitions(rules: seq<Rule>, paths: seq<string>)
    ensures var plan := PlanFor(rules, paths);
            multiset(paths) == multiset(plan.restartReasons) + multiset(plan.hotReasons) + multiset(plan.noopPaths)
  {
    SelectPartitions(paths, KindOf(rules));
  }

  lemma SumByCounts(all: multiset<string>, a: multiset<string>, b: multiset<string>, c: multiset<string>)
    requires forall x :: all[x] == a[x] + b[x] + c[x]
    ensures all == a + b + c
  {
  }

  lemma OfKindMembers(rules: seq<Rule>, paths: seq<string>, kind: Kind, path: string)
    ensures path in OfKind(rules, paths, kind) <==> path in paths && Classify(rules, path).0 == kind
  {
    SelectCount(paths, KindOf(rules), kind, path);
    assert path in OfKind(rules, paths, kind) <==> path in multiset(OfKind(rules, paths, kind));
    assert path in paths <==> path in multiset(paths);
  }

  ghost predicate Distinct(actions: seq<Action>) {
    forall i, j :: 0 <= i < j < |actions| ==> actions[i] != actions[j]
  }

  lemma {:induction false} AddNewIsUnion(actions: seq<Action>, more: seq<Action>)
    requires Distinct(actions)
    ensures Distinct(AddNew(actions, more))
    ensures forall a :: a in AddNew(actions, more) <==> a in actions || a in more
    decreases |more|
  {
    if more != [] {
      AddNewIsUnion(if more[0] in actions then actions else actions + [more[0]], more[1..]);
      assert more == [more[0]] + more[1..];
    }
  }

  ghost predicate Dispatches(rules: seq<Rule>, paths: seq<string>, a: Action) {
    exists p :: p in paths && Classify(rules, p).0 == Hot && a in Classify(rules, p).1
  }

  /** The actions are the union over the hot paths, without repeats. */
  lemma {:induction false} ActionsAreUnion(rules: seq<Rule>, paths: seq<string>)
    ensures Distinct(ActionsOf(rules, paths))
    ensures forall a :: a in ActionsOf(rules, paths) <==> Dispatches(rules, paths, a)
  {
    if paths != [] {
      var n := |paths| - 1;
      var before := paths[..n];
      ActionsAreUnion(rules, before);
      AddNewIsUnion(ActionsOf(rules, before), Classify(rules, paths[n]).1);
      assert paths == before + [paths[n]];
      forall a ensures Dispatches(rules, paths, a)
                       <==> Dispatches(rules, before, a) || (Classify(rules, paths[n]).0 == Hot && a in Classify(rules, paths[n]).1)
      {
        if Dispatches(rules, before, a) {
          var p :| p in before && Classify(rules, p).0 == Hot && a in Classify(rules, p).1;
          assert p in paths;
        }
        assert paths[n] in paths;
      }
    }
  }

  // ---- The skills version ----

  predicate IsNoop(plan: Plan) {
    !plan.restartDaemon && plan.hotReasons == [] && plan.actions == []
  }

  predicate TouchesSkills(paths: seq<string>) {
    exists i :: 0 <= i < |paths| && PrefixMatches("skills", paths[i])
  }

  /** Lines 330-343: the diff, the plan, and the version after the reload. */
  method PlanReload(old_: Snapshot, new_: Snapshot, rules: seq<Rule>, version: nat)
    returns (plan: Plan, noop: bool, version': nat)
    ensures StrictlySorted(plan.changedPaths) && forall p :: p in plan.changedPaths <==> Differs(old_, new_, p)
    ensures plan == PlanFor(rules, plan.changedPaths) && noop == IsNoop(plan)
    ensures version' == version + Bump(rules, plan.changedPaths)
  {
    var changed := DiffConfig(old_, new_);
    plan := BuildPlan(changed, rules);
    noop := IsNoop(plan);
    version' := version;
    if !noop && TouchesSkills(plan.changedPaths) {
      version' := version' + 1;
    }
  }

  function Bump(rules: seq<Rule>, paths: seq<string>): nat {
    if !IsNoop(PlanFor(rules, paths)) && TouchesSkills(paths) then 1 else 0
  }

  /** A reload touches skills exactly when one of its paths is `skills` or lies below it. */
  lemma TouchesSkillsIff(paths: seq<string>)
    ensures TouchesSkills(paths) <==> exists p :: p in paths && (p == "skills" || "skills." <= p)
  {
    assert "skills" + "." == "skills.";
    if TouchesSkills(paths) {
      var i :| 0 <= i < |paths| && PrefixMatches("skills", paths[i]);
      assert paths[i] in paths;
    }
    if p :| p in paths && (p == "skills" || "skills." <= p) {
      var i :| 0 <= i < |paths| && paths[i] == p;
      assert PrefixMatches("skills", paths[i]);
    }
  }

  /** A plan is a no-op exactly when every changed path is classified as quiet. */
  lemma NoopIff(rules: seq<Rule>, paths: seq<string>)
    ensures IsNoop(PlanFor(rules, paths)) <==> forall p :: p in paths ==> Classify(rules, p).0 == Quiet
  {
    ActionsAreUnion(rules, paths);
    forall p ensures p in OfKind(rules, paths, Restart) <==> p in paths && Classify(rules, p).0 == Restart {
      OfKindMembers(rules, paths, Restart, p);
    }
    forall p ensures p in OfKind(rules, paths, Hot) <==> p in paths && Classify(rules, p).0 == Hot {
      OfKindMembers(rules, paths, Hot, p);
    }
    var r, h, a := OfKind(rules, paths, Restart), OfKind(rules, paths, Hot), ActionsOf(rules, paths);
    assert r != [] ==> r[0] in r;
    assert h != [] ==> h[0] in h;
    assert a != [] ==> a[0] in a;
  }

  lemma NoEarlierS()
    ensures forall i :: 0 <= i < 12 ==> |BUILTIN_RULES[i].prefix| > 0 && BUILTIN_RULES[i].prefix[0] != 's'
    ensures BUILTIN_RULES[12] == Rule("skills", Hot, []) && "skills"[0] == 's'
  {
  }

  lemma SkillsPathIsHot(path: string)
    requires PrefixMatches("skills", path)
    ensures Classify(BUILTIN_RULES, path).0 == Hot
  {
    NoEarlierS();
    assert path[0] == "skills"[0];
    forall i | 0 <= i < 12 ensures !PrefixMatches(BUILTIN_RULES[i].prefix, path) {
      StartsDiffer(BUILTIN_RULES[i].prefix, path);
    }
  }

  lemma StartsDiffer(p: string, path: string)
    requires p != "" && path != "" && p[0] != path[0]
    ensures !PrefixMatches(p, path)
  {
    assert (p + ".")[0] == p[0];
  }

  /** With the built-in table, a reload bumps the version exactly when it touched a skills path. */
  lemma BumpIffTouched(paths: seq<string>)
    ensures Bump(BUILTIN_RULES, paths) == if TouchesSkills(paths) then 1 else 0
  {
    NoopIff(BUILTIN_RULES, paths);
    if TouchesSkills(paths) {
      var i :| 0 <= i < |paths| && PrefixMatches("skills", paths[i]);
      SkillsPathIsHot(paths[i]);
      assert paths[i] in paths;
    }
  }

  ghost function VersionAfter(version: nat, reloads: seq<seq<string>>): nat {
    if reloads == [] then version
    else VersionAfter(version, reloads[..|reloads| - 1]) + Bump(BUILTIN_RULES, reloads[|reloads| - 1])
  }

  ghost function Touching(reloads: seq<seq<string>>): set<int> {
    set i | 0 <= i < |reloads| && TouchesSkills(reloads[i])
  }

  lemma TouchingSnoc(reloads: seq<seq<string>>)
    requires reloads != []
    ensures var n := |reloads| - 1;
            |Touching(reloads)| == |Touching(reloads[..n])| + if TouchesSkills(reloads[n]) then 1 else 0
  {
    var n := |reloads| - 1;
    assert forall i :: 0 <= i < n ==> reloads[..n][i] == reloads[i];
    assert Touching(reloads) == if TouchesSkills(reloads[n]) then Touching(reloads[..n]) + {n} else Touching(reloads[..n]);
  }

  /** Over any run of reloads the version has counted exactly those that touched a skills path. */
  lemma {:induction false} VersionCounts(version: nat, reloads: seq<seq<string>>)
    ensures VersionAfter(version, reloads) == version + |Touching(reloads)|
  {
    if reloads == [] {
      assert Touching(reloads) == {};
    } else {
      var n := |reloads| - 1;
      VersionCounts(version, reloads[..n]);
      BumpIffTouched(reloads[n]);
      TouchingSnoc(reloads);
    }
  }
}
