/** The three-layer configuration merge (crates/domain/src/constitution.rs): user over team over base,
    recursive on tables, by name on keyed arrays. */
module Constitution {
  import opened Options
  import opened Sorting

  datatype TomlValue =
    | Str(s: string)
    | Integer(n: int)
    | Boolean(b: bool)
    | Array(items: seq<TomlValue>)
    | Table(entries: map<string, TomlValue>)
    | KeyedArray(rows: seq<map<string, TomlValue>>)

  type Row = map<string, TomlValue>

  /** How the code spells a value that is not set. */
  const UNSET := Str("")

  function Get(t: Row, key: string): TomlValue {
    if key in t then t[key] else UNSET
  }

  // ---- Keyed arrays ----

  function NameOf(row: Row): Option<string> {
    if "name" in row && row["name"].Str? then Some(row["name"].s) else None
  }

  /** The first position holding a row called `name`, or the length. */
  function Find(rows: seq<Row>, name: string): (i: nat)
    ensures i <= |rows|
    ensures i < |rows| ==> NameOf(rows[i]) == Some(name)
    ensures forall k :: 0 <= k < i ==> NameOf(rows[k]) != Some(name)
  {
    if rows == [] || NameOf(rows[0]) == Some(name) then 0
    else
      var i := 1 + Find(rows[1..], name);
      assert forall k :: 1 <= k < i ==> rows[k] == rows[1..][k - 1];
      i
  }

  /** A team row fills a gap: it is added unless its name is already there. */
  function Fill(rows: seq<Row>, row: Row): seq<Row> {
    if NameOf(row).Some? && Find(rows, NameOf(row).value) < |rows| then rows else rows + [row]
  }

  /** A user row replaces the first row of its name, or is added. */
  function Replace(rows: seq<Row>, row: Row): seq<Row> {
    if NameOf(row).Some? && Find(rows, NameOf(row).value) < |rows|
    then rows[Find(rows, NameOf(row).value) := row] else rows + [row]
  }

  function FillAll(rows: seq<Row>, team: seq<Row>): seq<Row>
    decreases |team|
  {
    if team == [] then rows else FillAll(Fill(rows, team[0]), team[1..])
  }

  function ReplaceAll(rows: seq<Row>, user: seq<Row>): seq<Row>
    decreases |user|
  {
    if user == [] then rows else ReplaceAll(Replace(rows, user[0]), user[1..])
  }

  function MergeRows(base: seq<Row>, team: seq<Row>, user: seq<Row>): seq<Row> {
    ReplaceAll(FillAll(base, team), user)
  }

  lemma {:induction false} FillAllSnoc(rows: seq<Row>, team: seq<Row>, row: Row)
    ensures FillAll(rows, team + [row]) == Fill(FillAll(rows, team), row)
    decreases |team|
  {
    if team == [] {
      assert FillAll(rows, [row]) == FillAll(Fill(rows, row), [row][1..]);
    } else {
      assert (team + [row])[1..] == team[1..] + [row];
      FillAllSnoc(Fill(rows, team[0]), team[1..], row);
    }
  }

  lemma {:induction false} ReplaceAllSnoc(rows: seq<Row>, user: seq<Row>, row: Row)
    ensures ReplaceAll(rows, user + [row]) == Replace(ReplaceAll(rows, user), row)
    decreases |user|
  {
    if user == [] {
      assert ReplaceAll(rows, [row]) == ReplaceAll(Replace(rows, row), [row][1..]);
    } else {
      assert (user + [row])[1..] == user[1..] + [row];
      ReplaceAllSnoc(Replace(rows, user[0]), user[1..], row);
    }
  }

  /** Lines 148-192: the list updated in place, team rows first, then user rows. */
  method MergeKeyedArrays(base: seq<Row>, team: seq<Row>, user: seq<Row>) returns (result: seq<Row>)
    ensures result == MergeRows(base, team, user)
  {
    result := base;
    for i := 0 to |team|
      invariant result == FillAll(base, team[..i])
    {
      FillAllSnoc(base, team[..i], team[i]);
      assert team[..i + 1] == team[..i] + [team[i]];
      var name := NameOf(team[i]);
      if name.Some? {
        if Find(result, name.value) == |result| {
          result := result + [team[i]];
        }
      } else {
        result := result + [team[i]];
      }
    }
    assert team[..|team|] == team;
    ghost var filled := result;
    for i := 0 to |user|
      invariant result == ReplaceAll(filled, user[..i])
    {
      ReplaceAllSnoc(filled, user[..i], user[i]);
      assert user[..i + 1] == user[..i] + [user[i]];
      var name := NameOf(user[i]);
      if name.Some? {
        var slot := Find(result, name.value);
        if slot < |result| {
          result := result[slot := user[i]];
        } else {
          result := result + [user[i]];
        }
      } else {
        result := result + [user[i]];
      }
    }
    assert user[..|user|] == user;
  }

  // ---- Keyed arrays: what comes out ----

  /** The first, and the last, row called `name`. */
  ghost function First(rows: seq<Row>, name: string): Option<Row> {
    var i := Find(rows, name);
    if i < |rows| then Some(rows[i]) else None
  }

  ghost function Last(rows: seq<Row>, name: string): Option<Row> {
    if rows == [] then None
    else if Last(rows[1..], name).Some? then Last(rows[1..], name)
    else if NameOf(rows[0]) == Some(name) then Some(rows[0]) else None
  }

  lemma FirstUnique(rows: seq<Row>, name: string, i: nat)
    requires i < |rows| && NameOf(rows[i]) == Some(name) && forall k :: 0 <= k < i ==> NameOf(rows[k]) != Some(name)
    ensures Find(rows, name) == i
  {
  }

  lemma FirstCons(rows: seq<Row>, name: string)
    requires rows != []
    ensures First(rows, name) == if NameOf(rows[0]) == Some(name) then Some(rows[0]) else First(rows[1..], name)
  {
    var i := Find(rows[1..], name);
    if NameOf(rows[0]) != Some(name) && i < |rows[1..]| {
      FirstUnique(rows, name, i + 1);
    }
  }

  lemma FirstAfterFill(rows: seq<Row>, row: Row, name: string)
    ensures First(Fill(rows, row), name)
            == if First(rows, name).Some? then First(rows, name) else if NameOf(row) == Some(name) then Some(row) else None
  {
    var rows' := Fill(rows, row);
    var i := Find(rows, name);
    if i < |rows| {
      assert rows'[i] == rows[i];
      FirstUnique(rows', name, i);
    } else if NameOf(row) == Some(name) {
      FirstUnique(rows', name, |rows|);
    }
  }

  lemma FirstAfterReplace(rows: seq<Row>, row: Row, name: string)
    ensures First(Replace(rows, row), name) == if NameOf(row) == Some(name) then Some(row) else First(rows, name)
  {
    var rows' := Replace(rows, row);
    var i := Find(rows, name);
    if i < |rows| {
      FirstUnique(rows', name, i);
    } else if NameOf(row) == Some(name) {
      FirstUnique(rows', name, |rows|);
    }
  }

  lemma {:induction false} FirstAfterFillAll(rows: seq<Row>, team: seq<Row>, name: string)
    ensures First(FillAll(rows, team), name) == if First(rows, name).Some? then First(rows, name) else First(team, name)
    decreases |team|
  {
    if team != [] {
      FirstAfterFill(rows, team[0], name);
      FirstAfterFillAll(Fill(rows, team[0]), team[1..], name);
      FirstCons(team, name);
    }
  }

  lemma {:induction false} FirstAfterReplaceAll(rows: seq<Row>, user: seq<Row>, name: string)
    ensures First(ReplaceAll(rows, user), name) == if Last(user, name).Some? then Last(user, name) else First(rows, name)
    decreases |user|
  {
    if user != [] {
      FirstAfterReplace(rows, user[0], name);
      FirstAfterReplaceAll(Replace(rows, user[0]), user[1..], name);
    }
  }

  /** For each name: the user's last row, else the base row, else the team's first row. */
  lemma Precedence(base: seq<Row>, team: seq<Row>, user: seq<Row>, name: string)
    ensures First(MergeRows(base, team, user), name)
            == if Last(user, name).Some? then Last(user, name)
               else if First(base, name).Some? then First(base, name)
               else First(team, name)
  {
    FirstAfterFillAll(base, team, name);
    FirstAfterReplaceAll(FillAll(base, team), user, name);
  }

  /** A row is called what its `name` entry holds, if that is a string. */
  ghost predicate Called(row: Row, name: string) { "name" in row && row["name"] == Str(name) }

  ghost predicate NoneCalled(rows: seq<Row>, name: string) {
    forall i :: 0 <= i < |rows| ==> !Called(rows[i], name)
  }

  ghost predicate FirstCalled(rows: seq<Row>, name: string, row: Row) {
    exists i :: 0 <= i < |rows| && rows[i] == row && Called(row, name) && NoneCalled(rows[..i], name)
  }

  ghost predicate LastCalled(rows: seq<Row>, name: string, row: Row) {
    exists i :: 0 <= i < |rows| && rows[i] == row && Called(row, name) && NoneCalled(rows[i + 1..], name)
  }

  lemma FirstIsFirstCalled(rows: seq<Row>, name: string, row: Row)
    ensures First(rows, name) == Some(row) <==> FirstCalled(rows, name, row)
    ensures First(rows, name) == None <==> NoneCalled(rows, name)
  {
    var k := Find(rows, name);
    assert forall r: Row :: Called(r, name) <==> NameOf(r) == Some(name);
    if k < |rows| { assert NoneCalled(rows[..k], name) && Called(rows[k], name); }
    if i :| 0 <= i < |rows| && rows[i] == row && Called(row, name) && NoneCalled(rows[..i], name) {
      forall j | 0 <= j < i ensures NameOf(rows[j]) != Some(name) {
        assert rows[..i][j] == rows[j];
      }
      FirstUnique(rows, name, i);
    }
  }

  lemma {:induction false} LastIsLastCalled(rows: seq<Row>, name: string, row: Row)
    requires LastCalled(rows, name, row)
    ensures Last(rows, name) == Some(row)
  {
    assert forall r: Row :: Called(r, name) <==> NameOf(r) == Some(name);
    var i :| 0 <= i < |rows| && rows[i] == row && Called(row, name) && NoneCalled(rows[i + 1..], name);
    if i > 0 {
      assert rows[1..][i - 1] == row && rows[1..][i..] == rows[i + 1..];
      LastIsLastCalled(rows[1..], name, row);
    } else {
      FirstIsFirstCalled(rows[1..], name, row);
      LastFound(rows[1..], name);
    }
  }

  /** Precedence over the `name` entries themselves: the user's last row of a name comes first of that name
      in the merge; without one, the base's first row; without that, the team's first row. */
  lemma PrecedenceByName(base: seq<Row>, team: seq<Row>, user: seq<Row>, name: string, row: Row)
    ensures LastCalled(user, name, row) ==> FirstCalled(MergeRows(base, team, user), name, row)
    ensures NoneCalled(user, name) && FirstCalled(base, name, row) ==> FirstCalled(MergeRows(base, team, user), name, row)
    ensures NoneCalled(user, name) && NoneCalled(base, name) && FirstCalled(team, name, row) ==>
              FirstCalled(MergeRows(base, team, user), name, row)
    ensures NoneCalled(user, name) && NoneCalled(base, name) && NoneCalled(team, name) ==>
              NoneCalled(MergeRows(base, team, user), name)
  {
    Precedence(base, team, user, name);
    LastFound(user, name);
    FirstIsFirstCalled(MergeRows(base, team, user), name, row);
    FirstIsFirstCalled(base, name, row);
    FirstIsFirstCalled(team, name, row);
    FirstIsFirstCalled(user, name, row);
    if LastCalled(user, name, row) { LastIsLastCalled(user, name, row); }
  }

  ghost function Names(rows: seq<Row>): set<string> {
    set i | 0 <= i < |rows| && NameOf(rows[i]).Some? :: NameOf(rows[i]).value
  }

  lemma NamesAreFound(rows: seq<Row>, name: string)
    ensures name in Names(rows) <==> First(rows, name).Some?
  {
    if name in Names(rows) {
      var i :| 0 <= i < |rows| && NameOf(rows[i]) == Some(name);
      assert Find(rows, name) <= i;
    }
  }

  lemma {:induction false} LastFound(rows: seq<Row>, name: string)
    ensures Last(rows, name).Some? <==> First(rows, name).Some?
    ensures Last(rows, name).Some? ==> NameOf(Last(rows, name).value) == Some(name)
  {
    if rows != [] {
      LastFound(rows[1..], name);
      FirstCons(rows, name);
    }
  }

  /** The merged names are the names of the three layers. */
  lemma NameUnion(base: seq<Row>, team: seq<Row>, user: seq<Row>)
    ensures Names(MergeRows(base, team, user)) == Names(base) + Names(team) + Names(user)
  {
    forall name ensures name in Names(MergeRows(base, team, user)) <==> name in Names(base) + Names(team) + Names(user) {
      Precedence(base, team, user, name);
      LastFound(user, name);
      NamesAreFound(base, name);
      NamesAreFound(team, name);
      NamesAreFound(user, name);
      NamesAreFound(MergeRows(base, team, user), name);
    }
  }

  ghost predicate DistinctNames(rows: seq<Row>) {
    forall i, j :: 0 <= i < j < |rows| && NameOf(rows[i]).Some? ==> NameOf(rows[i]) != NameOf(rows[j])
  }

  lemma {:induction false} FillAllDistinct(rows: seq<Row>, team: seq<Row>)
    requires DistinctNames(rows)
    ensures DistinctNames(FillAll(rows, team))
    decreases |team|
  {
    if team != [] { FillAllDistinct(Fill(rows, team[0]), team[1..]); }
  }

  lemma {:induction false} ReplaceAllDistinct(rows: seq<Row>, user: seq<Row>)
    requires DistinctNames(rows)
    ensures DistinctNames(ReplaceAll(rows, user))
    decreases |user|
  {
    if user != [] { ReplaceAllDistinct(Replace(rows, user[0]), user[1..]); }
  }

  /** `rows'` keeps the rows of `rows` in place, each under its name, unnamed ones untouched. */
  ghost predicate KeepsPrefix(rows: seq<Row>, rows': seq<Row>) {
    && |rows| <= |rows'|
    && forall i :: 0 <= i < |rows| ==> NameOf(rows'[i]) == NameOf(rows[i]) && (NameOf(rows[i]).None? ==> rows'[i] == rows[i])
  }

  lemma {:induction false} FillAllKeepsPrefix(rows: seq<Row>, team: seq<Row>)
    ensures rows <= FillAll(rows, team)
    decreases |team|
  {
    if team != [] { FillAllKeepsPrefix(Fill(rows, team[0]), team[1..]); }
  }

  lemma {:induction false} ReplaceAllKeepsPrefix(rows: seq<Row>, user: seq<Row>)
    ensures KeepsPrefix(rows, ReplaceAll(rows, user))
    decreases |user|
  {
    if user != [] {
      ReplaceAllKeepsPrefix(Replace(rows, user[0]), user[1..]);
      assert KeepsPrefix(rows, Replace(rows, user[0]));
    }
  }

  /** The base rows stay in front, in their order; names stay distinct if the base names were. */
  lemma BaseOrderKept(base: seq<Row>, team: seq<Row>, user: seq<Row>)
    ensures KeepsPrefix(base, MergeRows(base, team, user))
    ensures DistinctNames(base) ==> DistinctNames(MergeRows(base, team, user))
  {
    FillAllKeepsPrefix(base, team);
    ReplaceAllKeepsPrefix(FillAll(base, team), user);
    if DistinctNames(base) {
      FillAllDistinct(base, team);
      ReplaceAllDistinct(FillAll(base, team), user);
    }
  }

  /** The rows without a name, with multiplicity. */
  ghost function Unnamed(rows: seq<Row>): multiset<Row> {
    if rows == [] then multiset{}
    else (if NameOf(rows[0]).None? then multiset{rows[0]} else multiset{}) + Unnamed(rows[1..])
  }

  lemma {:induction false} UnnamedSnoc(rows: seq<Row>, row: Row)
    ensures Unnamed(rows + [row]) == Unnamed(rows) + if NameOf(row).None? then multiset{row} else multiset{}
  {
    if rows == [] {
      assert Unnamed([row][1..]) == multiset{};
    } else {
      assert (rows + [row])[1..] == rows[1..] + [row];
      UnnamedSnoc(rows[1..], row);
    }
  }

  lemma {:induction false} UnnamedUpdate(rows: seq<Row>, i: nat, row: Row)
    requires i < |rows| && NameOf(rows[i]).Some? && NameOf(row).Some?
    ensures Unnamed(rows[i := row]) == Unnamed(rows)
  {
    if i > 0 {
      UnnamedUpdate(rows[1..], i - 1, row);
      assert rows[i := row][1..] == rows[1..][i - 1 := row];
    } else {
      assert rows[i := row][1..] == rows[1..];
    }
  }

  lemma {:induction false} UnnamedAfterFillAll(rows: seq<Row>, team: seq<Row>)
    ensures Unnamed(FillAll(rows, team)) == Unnamed(rows) + Unnamed(team)
    decreases |team|
  {
    if team != [] {
      UnnamedAfterFillAll(Fill(rows, team[0]), team[1..]);
      UnnamedSnoc(rows, team[0]);
    }
  }

  lemma {:induction false} UnnamedAfterReplaceAll(rows: seq<Row>, user: seq<Row>)
    ensures Unnamed(ReplaceAll(rows, user)) == Unnamed(rows) + Unnamed(user)
    decreases |user|
  {
    if user != [] {
      UnnamedAfterReplaceAll(Replace(rows, user[0]), user[1..]);
      UnnamedSnoc(rows, user[0]);
      if NameOf(user[0]).Some? && Find(rows, NameOf(user[0]).value) < |rows| {
        UnnamedUpdate(rows, Find(rows, NameOf(user[0]).value), user[0]);
      }
    }
  }

  /** Rows without a name are never dropped and never replaced. */
  lemma UnnamedConserved(base: seq<Row>, team: seq<Row>, user: seq<Row>)
    ensures Unnamed(MergeRows(base, team, user)) == Unnamed(base) + Unnamed(team) + Unnamed(user)
  {
    UnnamedAfterFillAll(base, team);
    UnnamedAfterReplaceAll(FillAll(base, team), user);
  }

  // ---- Values ----

  /** Lines 102-113: everything but three tables. */
  function MergeFlat(base: TomlValue, team: TomlValue, user: TomlValue): TomlValue {
    if base.KeyedArray? && team.KeyedArray? && user.KeyedArray? then KeyedArray(MergeRows(base.rows, team.rows, user.rows))
    else if user != UNSET then user
    else if team != UNSET then team
    else base
  }

  /** Lines 99-146. */
  function Merge(base: TomlValue, team: TomlValue, user: TomlValue): TomlValue
    decreases base
  {
    if base.Table? && team.Table? && user.Table? then
      Table(map k | k in base.entries.Keys + team.entries.Keys + user.entries.Keys ::
              if k in base.entries then Merge(base.entries[k], Get(team.entries, k), Get(user.entries, k))
              else MergeFlat(UNSET, Get(team.entries, k), Get(user.entries, k)))
    else MergeFlat(base, team, user)
  }

  /** Lines 117-146 inside 99-115: the loop over all keys of the three tables. */
  method MergeToml(base: TomlValue, team: TomlValue, user: TomlValue) returns (merged: TomlValue)
    ensures merged == Merge(base, team, user)
    decreases base
  {
    if base.Table? && team.Table? && user.Table? {
      var all := base.entries.Keys + team.entries.Keys + user.entries.Keys;
      var left, result: Row := all, map[];
      while left != {}
        invariant left <= all && result.Keys == all - left
        invariant forall k :: k in result ==> k in Merge(base, team, user).entries && result[k] == Merge(base, team, user).entries[k]
      {
        var key := AnyOf(left);
        var v;
        if key in base.entries {
          v := MergeToml(base.entries[key], Get(team.entries, key), Get(user.entries, key));
        } else {
          v := MergeFlatValues(UNSET, Get(team.entries, key), Get(user.entries, key));
        }
        result := result[key := v];
        left := left - {key};
      }
      merged := Table(result);
      assert result == Merge(base, team, user).entries;
    } else {
      merged := MergeFlatValues(base, team, user);
    }
  }

  method MergeFlatValues(base: TomlValue, team: TomlValue, user: TomlValue) returns (merged: TomlValue)
    ensures merged == MergeFlat(base, team, user)
  {
    if base.KeyedArray? && team.KeyedArray? && user.KeyedArray? {
      var rows := MergeKeyedArrays(base.rows, team.rows, user.rows);
      return KeyedArray(rows);
    }
    return if user != UNSET then user else if team != UNSET then team else base;
  }

  // ---- Laws ----

  /** A scalar of the user counts unless it is the empty string; then the team's does, then the base's. */
  lemma ScalarPrecedence(base: string, team: string, user: string, n: int)
    ensures Merge(Str(base), Str(team), Str(user)) == Str(if user != "" then user else if team != "" then team else base)
    ensures Merge(Str(base), Integer(n), Str(user)) == if user != "" then Str(user) else Integer(n)
    ensures Merge(Integer(n), Str(""), Str("")) == Merge(Str(base), Str(team), Integer(n)) == Integer(n)
  {
  }

  /** A table merged with two empty tables, in any of the three places, is itself. */
  lemma EmptyLayersAreNeutral(t: Row)
    ensures Merge(Table(t), Table(map[]), Table(map[])) == Table(t)
    ensures Merge(Table(map[]), Table(t), Table(map[])) == Table(t)
    ensures Merge(Table(map[]), Table(map[]), Table(t)) == Table(t)
  {
    assert Merge(Table(t), Table(map[]), Table(map[])).entries == t;
    assert Merge(Table(map[]), Table(t), Table(map[])).entries == t;
    assert Merge(Table(map[]), Table(map[]), Table(t)).entries == t;
  }

  // ---- The documented merge ----

  function Entries(v: TomlValue): Row { if v.Table? then v.entries else map[] }

  function At(v: TomlValue, k: string): TomlValue { Get(Entries(v), k) }

  function KeysOf(base: TomlValue, team: TomlValue, user: TomlValue): set<string> {
    Entries(base).Keys + Entries(team).Keys + Entries(user).Keys
  }

  function RowsOf(v: TomlValue): seq<Row> { if v.KeyedArray? then v.rows else [] }

  /** Some layer holds a table and the others hold tables or are silent; likewise for keyed arrays. */
  predicate Tables(base: TomlValue, team: TomlValue, user: TomlValue) {
    && (base.Table? || team.Table? || user.Table?)
    && (base.Table? || base == UNSET) && (team.Table? || team == UNSET) && (user.Table? || user == UNSET)
  }

  predicate Arrays(base: TomlValue, team: TomlValue, user: TomlValue) {
    && (base.KeyedArray? || team.KeyedArray? || user.KeyedArray?)
    && (base.KeyedArray? || base == UNSET) && (team.KeyedArray? || team == UNSET) && (user.KeyedArray? || user == UNSET)
  }

  /** The highest layer that is set. */
  function Winner(base: TomlValue, team: TomlValue, user: TomlValue): TomlValue {
    if user != UNSET then user else if team != UNSET then team else base
  }

  /** Lines 91-98, the rules as documented: tables are a recursive key union, keyed arrays merge by name,
      anything else is the highest set value. A silent layer counts as an empty table or array. */
  function Documented(base: TomlValue, team: TomlValue, user: TomlValue): TomlValue
    decreases base.Table?, base, team.Table?, team, user.Table?, user
  {
    if Tables(base, team, user) then
      Table(map k | k in KeysOf(base, team, user) :: Documented(At(base, k), At(team, k), At(user, k)))
    else if Arrays(base, team, user) then KeyedArray(MergeRows(RowsOf(base), RowsOf(team), RowsOf(user)))
    else Winner(base, team, user)
  }

  /** Filling with `team` ends at `team`: the rows start it, all named, and what follows is new. */
  ghost predicate FilledUp(rows: seq<Row>, team: seq<Row>) {
    && rows <= team && AllNamed(rows) && NewFrom(team, |rows|)
  }

  ghost predicate AllNamed(rows: seq<Row>) {
    forall i :: 0 <= i < |rows| ==> NameOf(rows[i]).Some?
  }

  /** From position `n` on, no row repeats an earlier name. */
  ghost predicate NewFrom(rows: seq<Row>, n: nat) {
    forall i :: n <= i < |rows| && NameOf(rows[i]).Some? ==> Find(rows, NameOf(rows[i]).value) == i
  }

  /** Replacing with `user` ends at `user`: it starts with the names of `rows`, repeats what `rows`
      repeats, gives each name its last word at once, and what follows is new. */
  ghost predicate Replaced(rows: seq<Row>, user: seq<Row>) {
    && |rows| <= |user| && AllNamed(rows) && NewFrom(user, |rows|)
    && (forall i :: 0 <= i < |rows| ==> NameOf(user[i]) == NameOf(rows[i]))
    && (forall i :: 0 <= i < |rows| && Find(rows, NameOf(rows[i]).value) != i ==> user[i] == rows[i])
    && (forall name :: First(user, name) == Last(user, name))
  }

  lemma {:induction false} FillAllNew(rows: seq<Row>, team: seq<Row>, n: nat)
    requires NewFrom(rows, n)
    ensures NewFrom(FillAll(rows, team), n)
    decreases |team|
  {
    if team != [] {
      NewFromSnoc(rows, team[0], n);
      FillAllNew(Fill(rows, team[0]), team[1..], n);
    }
  }

  lemma NewFromSnoc(rows: seq<Row>, row: Row, n: nat)
    requires NewFrom(rows, n)
    ensures NameOf(row).None? || Find(rows, NameOf(row).value) == |rows| ==> NewFrom(rows + [row], n)
  {
    forall i | n <= i < |rows| && NameOf(rows[i]).Some? ensures Find(rows + [row], NameOf(rows[i]).value) == i {
      FirstUnique(rows + [row], NameOf(rows[i]).value, i);
    }
    if NameOf(row).Some? && Find(rows, NameOf(row).value) == |rows| {
      FirstUnique(rows + [row], NameOf(row).value, |rows|);
    }
  }

  lemma {:induction false} ReplaceAllNew(rows: seq<Row>, user: seq<Row>, n: nat)
    requires NewFrom(rows, n)
    ensures NewFrom(ReplaceAll(rows, user), n)
    decreases |user|
  {
    if user != [] {
      NewFromSnoc(rows, user[0], n);
      var rows' := Replace(rows, user[0]);
      if |rows'| == |rows| {
        forall i | n <= i < |rows'| && NameOf(rows'[i]).Some? ensures Find(rows', NameOf(rows'[i]).value) == i {
          SameNamesSameFind(rows, rows', NameOf(rows'[i]).value);
        }
      }
      ReplaceAllNew(rows', user[1..], n);
    }
  }

  lemma NothingUnnamed(rows: seq<Row>, all: multiset<Row>)
    requires Unnamed(rows) + all == all
    ensures AllNamed(rows)
  {
    forall i | 0 <= i < |rows| ensures NameOf(rows[i]).Some? {
      UnnamedMember(rows, i);
      assert (Unnamed(rows) + all)[rows[i]] == Unnamed(rows)[rows[i]] + all[rows[i]];
    }
  }

  lemma FilledUpIff(rows: seq<Row>, team: seq<Row>)
    ensures FillAll(rows, team) == team <==> FilledUp(rows, team)
  {
    FillAllKeepsPrefix(rows, team);
    UnnamedAfterFillAll(rows, team);
    FillAllNew(rows, team, |rows|);
    if FillAll(rows, team) == team { NothingUnnamed(rows, Unnamed(team)); }
    if FilledUp(rows, team) { FillFrom(rows, team, 0); }
  }

  lemma {:induction false} FillFrom(rows: seq<Row>, team: seq<Row>, j: nat)
    requires FilledUp(rows, team) && j <= |team|
    ensures FillAll(if j <= |rows| then rows else team[..j], team[j..]) == team
    decreases |team| - j
  {
    if j == |team| {
      assert team[..j] == team && (j <= |rows| ==> rows == team);
    } else {
      var now := if j <= |rows| then rows else team[..j];
      FillFrom(rows, team, j + 1);
      assert team[j..][1..] == team[j + 1..];
      if j < |rows| {
        assert team[j] == rows[j] && Find(rows, NameOf(rows[j]).value) <= j;
      } else {
        assert now == team[..j] && team[..j + 1] == now + [team[j]];
        if NameOf(team[j]).Some? { NotBefore(team, j); }
      }
    }
  }

  /** A row that repeats no earlier name is not found among the rows before it. */
  lemma NotBefore(rows: seq<Row>, j: nat)
    requires j < |rows| && NameOf(rows[j]).Some? && Find(rows, NameOf(rows[j]).value) == j
    ensures Find(rows[..j], NameOf(rows[j]).value) == j
  {
    assert forall i :: 0 <= i < j ==> rows[..j][i] == rows[i];
  }

  lemma {:induction false} LaterRepeatsStay(rows: seq<Row>, user: seq<Row>, i: nat)
    requires i < |rows| && NameOf(rows[i]).Some? && Find(rows, NameOf(rows[i]).value) != i
    ensures i < |ReplaceAll(rows, user)| && ReplaceAll(rows, user)[i] == rows[i]
    decreases |user|
  {
    if user != [] {
      var name := NameOf(rows[i]).value;
      var rows' := Replace(rows, user[0]);
      assert Find(rows, name) < i;
      FirstUnique(rows', name, Find(rows, name));
      LaterRepeatsStay(rows', user[1..], i);
    }
  }

  lemma ReplacedIff(rows: seq<Row>, user: seq<Row>)
    ensures ReplaceAll(rows, user) == user <==> Replaced(rows, user)
  {
    if ReplaceAll(rows, user) == user { ReplacedNecessary(rows, user); }
    if Replaced(rows, user) { ReplacedSufficient(rows, user); }
  }

  lemma ReplacedNecessary(rows: seq<Row>, user: seq<Row>)
    requires ReplaceAll(rows, user) == user
    ensures Replaced(rows, user)
  {
    ReplaceAllKeepsPrefix(rows, user);
    UnnamedAfterReplaceAll(rows, user);
    NothingUnnamed(rows, Unnamed(user));
    ReplaceAllNew(rows, user, |rows|);
    forall i | 0 <= i < |rows| && Find(rows, NameOf(rows[i]).value) != i ensures user[i] == rows[i] {
      LaterRepeatsStay(rows, user, i);
    }
    forall name ensures First(user, name) == Last(user, name) {
      FirstAfterReplaceAll(rows, user, name);
      LastFound(user, name);
    }
  }

  lemma ReplacedSufficient(rows: seq<Row>, user: seq<Row>)
    requires Replaced(rows, user)
    ensures ReplaceAll(rows, user) == user
  {
    var n := |rows|;
    var front := user[..n];
    forall i | 0 <= i < n ensures NameOf(front[i]).Some? && First(rows, NameOf(front[i]).value).Some? {
      assert Find(rows, NameOf(rows[i]).value) <= i;
    }
    ReplacePresent(rows, front);
    ReplaceAllKeepsPrefix(rows, front);
    var mid := ReplaceAll(rows, front);
    forall i | 0 <= i < n ensures mid[i] == user[i] {
      var name := NameOf(rows[i]).value;
      if Find(rows, name) == i { FirstRowIsLast(rows, user, i); }
    }
    assert mid == front;
    assert front + user[n..] == user;
    ReplaceAllConcat(rows, front, user[n..]);
    AppendNew(user, n);
  }

  lemma EarlyNamesAreGone(user: seq<Row>, n: nat, name: string)
    requires n <= |user| && NewFrom(user, n) && Find(user, name) < n
    ensures Last(user[n..], name).None?
  {
    forall k | n <= k < |user| ensures NameOf(user[k]) != Some(name) {
      assert NameOf(user[k]) == Some(name) ==> Find(user, name) == k;
    }
    LastFound(user[n..], name);
  }

  /** A last row that is not repeated later is the last one of the front. */
  lemma LastInFront(user: seq<Row>, n: nat, name: string)
    requires n <= |user| && NewFrom(user, n) && Find(user, name) < n
    ensures Last(user[..n], name) == Last(user, name)
  {
    EarlyNamesAreGone(user, n, name);
    assert user[..n] + user[n..] == user;
    LastConcat(user[..n], user[n..], name);
  }

  /** Where `rows` has a name first, replacing by the front of `user` leaves the user's own row. */
  lemma FirstRowIsLast(rows: seq<Row>, user: seq<Row>, i: nat)
    requires Replaced(rows, user) && i < |rows| && Find(rows, NameOf(rows[i]).value) == i
    ensures var mid := ReplaceAll(rows, user[..|rows|]); i < |mid| && mid[i] == user[i]
  {
    var front, name := user[..|rows|], NameOf(rows[i]).value;
    ReplaceAllKeepsPrefix(rows, front);
    FirstUnique(ReplaceAll(rows, front), name, i);
    FirstAfterReplaceAll(rows, front, name);
    FirstUnique(user, name, i);
    LastInFront(user, |rows|, name);
  }

  lemma {:induction false} LastConcat(a: seq<Row>, b: seq<Row>, name: string)
    ensures Last(a + b, name) == if Last(b, name).Some? then Last(b, name) else Last(a, name)
  {
    if a == [] {
      assert a + b == b;
    } else {
      assert (a + b)[1..] == a[1..] + b;
      LastConcat(a[1..], b, name);
    }
  }

  lemma {:induction false} ReplaceAllConcat(rows: seq<Row>, a: seq<Row>, b: seq<Row>)
    ensures ReplaceAll(rows, a + b) == ReplaceAll(ReplaceAll(rows, a), b)
    decreases |a|
  {
    if a == [] {
      assert a + b == b;
    } else {
      assert (a + b)[1..] == a[1..] + b;
      ReplaceAllConcat(Replace(rows, a[0]), a[1..], b);
    }
  }

  lemma {:induction false} AppendNew(user: seq<Row>, j: nat)
    requires j <= |user| && NewFrom(user, j)
    ensures ReplaceAll(user[..j], user[j..]) == user
    decreases |user| - j
  {
    if j == |user| {
      assert user[..j] == user;
    } else {
      assert user[j..][1..] == user[j + 1..] && user[..j + 1] == user[..j] + [user[j]];
      if NameOf(user[j]).Some? { NotBefore(user, j); }
      AppendNew(user, j + 1);
    }
  }

  /** The highest set layer already holds all that the lower ones add: every key of theirs, set if it is
      set below, and the same again inside; for keyed arrays, their rows. */
  ghost predicate Absorbs(base: TomlValue, team: TomlValue, user: TomlValue)
    decreases base.Table?, base, team.Table?, team, user.Table?, user
  {
    if Tables(base, team, user) then
      var top := Winner(base, team, user).entries;
      forall k :: k in KeysOf(base, team, user) ==>
        && k in top && (top[k] == UNSET ==> At(base, k) == At(team, k) == At(user, k) == UNSET)
        && Absorbs(At(base, k), At(team, k), At(user, k))
    else if Arrays(base, team, user) then
      if user.KeyedArray? then Replaced(FillAll(RowsOf(base), RowsOf(team)), user.rows)
      else team.KeyedArray? ==> FilledUp(RowsOf(base), team.rows)
    else true
  }

  /** A documented merge is silent only if every layer is. */
  lemma DocumentedUnset(base: TomlValue, team: TomlValue, user: TomlValue)
    ensures Documented(base, team, user) == UNSET <==> base == team == user == UNSET
  {
  }

  lemma {:induction false} AbsorbsIff(base: TomlValue, team: TomlValue, user: TomlValue)
    ensures Documented(base, team, user) == Winner(base, team, user) <==> Absorbs(base, team, user)
    decreases base.Table?, base, team.Table?, team, user.Table?, user
  {
    if Tables(base, team, user) {
      var top, merged := Winner(base, team, user).entries, Documented(base, team, user).entries;
      forall k | k in KeysOf(base, team, user)
        ensures k in top ==> (merged[k] == top[k] <==>
                  (top[k] == UNSET ==> At(base, k) == At(team, k) == At(user, k) == UNSET)
                  && Absorbs(At(base, k), At(team, k), At(user, k)))
      {
        AbsorbsIff(At(base, k), At(team, k), At(user, k));
        if k in top { AbsorbedKey(base, team, user, k); }
      }
      SameEntries(merged, top);
    } else if Arrays(base, team, user) {
      AbsorbedRows(base, team, user);
    }
  }

  lemma AbsorbedKey(base: TomlValue, team: TomlValue, user: TomlValue, k: string)
    requires Tables(base, team, user) && k in Winner(base, team, user).entries
    ensures var top, doc := Winner(base, team, user).entries[k], Documented(At(base, k), At(team, k), At(user, k));
            doc == top <==> (top == UNSET ==> At(base, k) == At(team, k) == At(user, k) == UNSET)
                            && doc == Winner(At(base, k), At(team, k), At(user, k))
  {
    DocumentedUnset(At(base, k), At(team, k), At(user, k));
  }

  /** A table with no fewer keys is the same as another when they agree on its keys. */
  lemma SameEntries(a: Row, b: Row)
    ensures a == b <==> b.Keys <= a.Keys && forall k :: k in a ==> k in b && a[k] == b[k]
  {
    if b.Keys <= a.Keys && forall k :: k in a ==> k in b && a[k] == b[k] {
      assert a.Keys == b.Keys;
    }
  }

  lemma AbsorbedRows(base: TomlValue, team: TomlValue, user: TomlValue)
    requires Arrays(base, team, user)
    ensures Documented(base, team, user) == Winner(base, team, user) <==> Absorbs(base, team, user)
  {
    ReplacedIff(FillAll(RowsOf(base), RowsOf(team)), RowsOf(user));
    FilledUpIff(RowsOf(base), RowsOf(team));
  }

  /** The code recurses only where all three layers hold a table, and merges rows only where all three
      hold an array; anywhere else the highest set layer must already say it all. */
  ghost predicate AsDocumented(base: TomlValue, team: TomlValue, user: TomlValue)
    decreases base
  {
    if base.Table? && team.Table? && user.Table? then
      && (forall k :: k in base.entries ==>
            AsDocumented(base.entries[k], Get(team.entries, k), Get(user.entries, k)))
      && (forall k :: k in team.entries.Keys + user.entries.Keys && k !in base.entries ==>
            Absorbs(UNSET, Get(team.entries, k), Get(user.entries, k)))
    else (base.KeyedArray? && team.KeyedArray? && user.KeyedArray?) || Absorbs(base, team, user)
  }

  /** The merge is the documented one exactly when the layers are `AsDocumented`. */
  lemma {:induction false} MergeIsDocumentedIff(base: TomlValue, team: TomlValue, user: TomlValue)
    ensures Merge(base, team, user) == Documented(base, team, user) <==> AsDocumented(base, team, user)
    decreases base
  {
    if base.Table? && team.Table? && user.Table? {
      var merged, doc := Merge(base, team, user).entries, Documented(base, team, user).entries;
      forall k | k in base.entries
        ensures merged[k] == doc[k] <==> AsDocumented(base.entries[k], Get(team.entries, k), Get(user.entries, k))
      {
        MergeIsDocumentedIff(base.entries[k], Get(team.entries, k), Get(user.entries, k));
      }
      forall k | k in team.entries.Keys + user.entries.Keys && k !in base.entries
        ensures merged[k] == doc[k] <==> Absorbs(UNSET, Get(team.entries, k), Get(user.entries, k))
      {
        AbsorbsIff(UNSET, Get(team.entries, k), Get(user.entries, k));
      }
      SameEntries(merged, doc);
    } else {
      AbsorbsIff(base, team, user);
    }
  }

  /** With one layer silent, two tables merge as if it were an empty table exactly when the higher one has
      every key of the lower, and has it set if the lower has. */
  lemma SilentLayerIff(low: Row, high: Row)
    ensures var covers := forall k :: k in low ==> k in high && (high[k] != UNSET || low[k] == UNSET);
            && (Merge(Table(low), UNSET, Table(high)) == Merge(Table(low), Table(map[]), Table(high)) <==> covers)
            && (Merge(Table(low), Table(high), UNSET) == Merge(Table(low), Table(high), Table(map[])) <==> covers)
            && (Merge(UNSET, Table(low), Table(high)) == Merge(Table(map[]), Table(low), Table(high)) <==> covers)
  {
    SilentLayerEntries(low, high);
    var m := Overridden(low, high);
    assert m == high <==> forall k :: k in low ==> k in high && m[k] == high[k];
  }

  /** `high` over `low`, key by key. */
  ghost function Overridden(low: Row, high: Row): Row {
    map k | k in low.Keys + high.Keys :: if Get(high, k) != UNSET then high[k] else Get(low, k)
  }

  lemma SilentLayerEntries(low: Row, high: Row)
    ensures Merge(Table(low), Table(map[]), Table(high)) == Table(Overridden(low, high))
    ensures Merge(Table(low), Table(high), Table(map[])) == Table(Overridden(low, high))
    ensures Merge(Table(map[]), Table(low), Table(high)) == Table(Overridden(low, high))
  {
    assert Merge(Table(low), Table(map[]), Table(high)).entries == Overridden(low, high);
    assert Merge(Table(low), Table(high), Table(map[])).entries == Overridden(low, high);
    assert Merge(Table(map[]), Table(low), Table(high)).entries == Overridden(low, high);
  }

  /** For instance, a user table hides every setting of a base table under the same key when the team is
      silent, where the documented merge keeps both. */
  lemma UserTableHidesBase(key: string, x: string, y: string, v: TomlValue, w: TomlValue)
    requires x != y
    ensures var base, user := Table(map[key := Table(map[x := v])]), Table(map[key := Table(map[y := w])]);
            var merged, doc := Merge(base, Table(map[]), user), Documented(base, Table(map[]), user);
            && merged.Table? && key in merged.entries && merged.entries[key] == Table(map[y := w])
            && doc.Table? && key in doc.entries && doc.entries[key].Table? && doc.entries[key].entries.Keys == {x, y}
  {
    var b, u := Table(map[x := v]), Table(map[y := w]);
    assert Documented(b, UNSET, u).entries.Keys == {x, y};
  }

  /** Merging rows with themselves: nothing unnamed, and each name's first row is also its last. */
  ghost predicate SelfStableRows(rows: seq<Row>) {
    && (forall i :: 0 <= i < |rows| ==> NameOf(rows[i]).Some?)
    && (forall name :: First(rows, name) == Last(rows, name))
  }

  ghost predicate SelfStable(v: TomlValue) {
    match v
    case Table(t) => forall k :: k in t ==> SelfStable(t[k])
    case KeyedArray(rows) => SelfStableRows(rows)
    case _ => true
  }

  lemma {:induction false} FillPresent(rows: seq<Row>, team: seq<Row>)
    requires forall i :: 0 <= i < |team| ==> NameOf(team[i]).Some? && First(rows, NameOf(team[i]).value).Some?
    ensures FillAll(rows, team) == rows
    decreases |team|
  {
    if team != [] { FillPresent(rows, team[1..]); }
  }

  lemma {:induction false} ReplacePresent(rows: seq<Row>, user: seq<Row>)
    requires forall i :: 0 <= i < |user| ==> NameOf(user[i]).Some? && First(rows, NameOf(user[i]).value).Some?
    ensures |ReplaceAll(rows, user)| == |rows|
    ensures forall i :: 0 <= i < |rows| && NameOf(rows[i]).Some? && Find(rows, NameOf(rows[i]).value) != i ==>
              ReplaceAll(rows, user)[i] == rows[i]
    decreases |user|
  {
    if user != [] {
      var rows' := Replace(rows, user[0]);
      forall name ensures Find(rows', name) == Find(rows, name) {
        SameNamesSameFind(rows, rows', name);
      }
      ReplacePresent(rows', user[1..]);
    }
  }

  lemma {:induction false} SameNamesSameFind(rows: seq<Row>, rows': seq<Row>, name: string)
    requires |rows| == |rows'| && forall i :: 0 <= i < |rows| ==> NameOf(rows[i]) == NameOf(rows'[i])
    ensures Find(rows', name) == Find(rows, name)
  {
    if Find(rows, name) < |rows| { FirstUnique(rows', name, Find(rows, name)); }
  }

  /** Merging rows with themselves gives them back exactly when they are self-stable; distinct names on
      every row are enough. */
  lemma SelfMergeRows(rows: seq<Row>)
    ensures MergeRows(rows, rows, rows) == rows <==> SelfStableRows(rows)
  {
    var merged := MergeRows(rows, rows, rows);
    UnnamedConserved(rows, rows, rows);
    if merged == rows {
      forall name ensures First(rows, name) == Last(rows, name) {
        Precedence(rows, rows, rows, name);
        LastFound(rows, name);
      }
      NoUnnamed(rows);
    } else {
      if SelfStableRows(rows) { StableRowsMerge(rows); }
    }
  }

  lemma {:induction false} NoUnnamed(rows: seq<Row>)
    requires Unnamed(rows) == Unnamed(rows) + Unnamed(rows) + Unnamed(rows)
    ensures forall i :: 0 <= i < |rows| ==> NameOf(rows[i]).Some?
  {
    forall i | 0 <= i < |rows| ensures NameOf(rows[i]).Some? {
      UnnamedMember(rows, i);
      assert Unnamed(rows)[rows[i]] == 3 * Unnamed(rows)[rows[i]];
    }
  }

  lemma {:induction false} UnnamedMember(rows: seq<Row>, i: nat)
    requires i < |rows|
    ensures NameOf(rows[i]).None? ==> rows[i] in Unnamed(rows)
  {
    if i > 0 { UnnamedMember(rows[1..], i - 1); }
  }

  lemma StableRowsMerge(rows: seq<Row>)
    requires SelfStableRows(rows)
    ensures MergeRows(rows, rows, rows) == rows
  {
    forall i | 0 <= i < |rows| ensures First(rows, NameOf(rows[i]).value).Some? {
      assert Find(rows, NameOf(rows[i]).value) <= i;
    }
    FillPresent(rows, rows);
    ReplacePresent(rows, rows);
    ReplaceAllKeepsPrefix(rows, rows);
    var merged := ReplaceAll(rows, rows);
    forall i | 0 <= i < |rows| ensures merged[i] == rows[i] {
      var name := NameOf(rows[i]).value;
      if Find(rows, name) == i {
        SameNamesSameFind(rows, merged, name);
        FirstAfterReplaceAll(rows, rows, name);
      }
    }
  }

  /** A value merged with itself twice is itself exactly when it is self-stable. */
  lemma {:induction false} SelfMerge(v: TomlValue)
    ensures Merge(v, v, v) == v <==> SelfStable(v)
  {
    match v
    case Table(t) =>
      var merged := Merge(v, v, v).entries;
      forall k | k in t ensures merged[k] == t[k] <==> SelfStable(t[k]) {
        SelfMerge(t[k]);
      }
      assert merged.Keys == t.Keys;
      if SelfStable(v) { assert merged == t; }
    case KeyedArray(rows) => SelfMergeRows(rows);
    case _ =>
  }

  lemma {:induction false} FirstIsLast(rows: seq<Row>, name: string)
    requires DistinctNames(rows)
    ensures First(rows, name) == Last(rows, name)
  {
    if rows != [] {
      FirstIsLast(rows[1..], name);
      FirstCons(rows, name);
      LastFound(rows[1..], name);
      if NameOf(rows[0]) == Some(name) {
        NamesAreFound(rows[1..], name);
      }
    }
  }

  /** In particular distinct names on every row suffice. */
  lemma DistinctNamesStable(rows: seq<Row>)
    requires DistinctNames(rows) && forall i :: 0 <= i < |rows| ==> NameOf(rows[i]).Some?
    ensures SelfStableRows(rows)
  {
    forall name ensures First(rows, name) == Last(rows, name) {
      FirstIsLast(rows, name);
    }
  }
}
