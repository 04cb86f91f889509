/** Backup and restore of the state tier (crates/domain/src/backup.rs): a copy staged under a hidden name
    and published by a rename. */
module Backup {
  import opened FileTree
  import opened TreeCopy
  import opened Numerals
  import opened Options
  import opened Sorting

  // ---- Names ----

  function Below64(n: int): Option<int> { if n < 0x1_0000_0000_0000_0000 then Some(n) else None }

  /** `str::parse::<u64>`: an optional plus sign, at least one digit, no overflow. */
  function ParseU64(s: string): Option<int> {
    var digits := if s != "" && s[0] == '+' then s[1..] else s;
    if digits != "" && AllDigits(digits) then Below64(Decimal(digits)) else None
  }

  /** The creation time a directory name stands for, when it is a backup name. */
  function BackupTime(name: string): Option<int> {
    if "backup-" <= name then ParseU64(name[|"backup-"|..]) else None
  }

  function BackupId(now: nat): string { "backup-" + Digits(now) }

  ghost predicate SpellsTime(name: string, digits: string, time: int) {
    && (name == "backup-" + digits || name == "backup-+" + digits)
    && digits != "" && AllDigits(digits) && Decimal(digits) == time < 0x1_0000_0000_0000_0000
  }

  /** The names `list` recognizes: "backup-", perhaps a plus sign, and the digits of a 64-bit number. */
  lemma BackupTimeIff(name: string, time: int)
    ensures BackupTime(name) == Some(time) <==> exists digits :: SpellsTime(name, digits, time)
  {
    if BackupTime(name) == Some(time) {
      var s := name[|"backup-"|..];
      var digits := if s != "" && s[0] == '+' then s[1..] else s;
      AfterPrefix(name);
      assert SpellsTime(name, digits, time);
    }
    if digits :| SpellsTime(name, digits, time) { SpelledIsParsed(name, digits, time); }
  }

  lemma AfterPrefix(name: string)
    requires "backup-" <= name
    ensures var s := name[|"backup-"|..];
            name == "backup-" + s && (s != "" && s[0] == '+' ==> name == "backup-+" + s[1..])
  {
    var s := name[|"backup-"|..];
    assert "backup-+" == "backup-" + "+";
    if s != "" && s[0] == '+' { assert s == "+" + s[1..]; }
  }

  lemma SpelledIsParsed(name: string, digits: string, time: int)
    requires SpellsTime(name, digits, time)
    ensures BackupTime(name) == Some(time)
  {
    var s := name[|"backup-"|..];
    assert "backup-+" == "backup-" + "+";
    if name == "backup-" + digits {
      assert s == digits && s[0] != '+';
    } else {
      assert name == "backup-" + ("+" + digits);
      assert s == "+" + digits && s[1..] == digits;
    }
    assert ParseU64(s) == Some(time);
  }

  /** How staging and the default backup are spelled. */
  lemma NamesAre(parent: Path, name: string, now: nat)
    ensures StagingFor(parent + [name]) == parent + ["." + name + ".partial"]
    ensures exists digits: string ::
              BackupId(now) == "backup-" + digits && digits != "" && Decimal(digits) == now && forall i :: 0 <= i < |digits| ==> IsDigit(digits[i])
  {
    assert Parent(parent + [name]) == parent;
    DigitsAreDecimal(now);
  }

  /** Lines 114-123: a hidden sibling of the target. */
  function StagingFor(target: Path): (staging: Path)
    requires target != []
    ensures |staging| == |target| && Parent(staging) == Parent(target)
    ensures staging[|staging| - 1] != target[|target| - 1]
    ensures BackupTime(staging[|staging| - 1]).None?
  {
    var name := target[|target| - 1];
    var hidden := "." + name + ".partial";
    assert hidden[0] == '.' && "backup-"[0] == 'b';
    assert |hidden| > |name|;
    Parent(target) + [hidden]
  }

  lemma SiblingsApart(target: Path)
    requires target != []
    ensures var staging := StagingFor(target); !(staging <= target) && !(target <= staging)
  {
    var staging := StagingFor(target);
    assert staging <= target || target <= staging ==> staging == target;
  }

  // ---- list ----

  /** The backups `list` finds in a directory. */
  ghost function Listed(fs: Fs, dir: Path): set<Path> {
    set p | p in fs && IsListing(fs, dir, p)
  }

  ghost predicate IsListing(fs: Fs, dir: Path, p: Path) {
    Lookup(fs, p) == Some(Dir) && |p| == |dir| + 1 && dir <= p && BackupTime(p[|dir|]).Some?
  }

  /** No missing parent of the target would be listed as a backup. */
  ghost predicate NoListedRoom(fs: Fs, dir: Path, target: Path) {
    forall q :: q <= target && q != target && q !in fs ==> !Listable(dir, q)
  }

  /** What the listing after the rename needs: neither staging nor the target holds `dir`, and no missing
      parent of the target looks like a backup. */
  ghost predicate Undisturbed(fs: Fs, dir: Path, target: Path)
    requires target != []
  {
    !(StagingFor(target) <= dir) && NoListedRoom(fs, dir, target) && !(target <= dir)
  }

  ghost predicate Listable(dir: Path, p: Path) {
    |p| == |dir| + 1 && dir <= p && BackupTime(p[|dir|]).Some?
  }

  /** The default target is a name `list` recognizes, with the time it was made. */
  lemma DefaultTargetListable(dir: Path, now: nat)
    requires now < 0x1_0000_0000_0000_0000
    ensures Listable(dir, dir + [BackupId(now)]) && BackupTime(BackupId(now)) == Some(now)
  {
    DigitsAreDecimal(now);
    assert BackupId(now)[|"backup-"|..] == Digits(now);
    assert IsDigit(Digits(now)[0]);
  }

  lemma EntersAtStaging(root: Path, dir: Path, p: Path)
    requires !(root <= dir) && |p| == |dir| + 1 && dir <= p
    ensures root <= p ==> root == p
  {
    if |root| <= |dir| { assert p[..|root|] == dir[..|root|]; }
  }

  lemma AncestorsShared(target: Path, q: Path)
    requires target != []
    ensures q <= StagingFor(target) && q != StagingFor(target) ==> q <= target && q != target
  {
    var staging := StagingFor(target);
    if q <= staging && q != staging {
      assert q == Parent(staging)[..|q|];
      assert q == target[..|q|];
    }
  }

  lemma BackupSeven()
    ensures BackupTime("backup-7") == Some(7)
  {
    assert "backup-7"[|"backup-"|..] == "7" && "7"[..0] == "";
    assert Decimal("7") == 7;
    assert "7"[0] == '7' && IsDigit("7"[0]);
    assert ParseU64("7") == Some(7);
    assert "backup-" <= "backup-7";
  }

  // ---- What a crash may leave of the old backups ----

  ghost predicate SameTree(fs: Fs, s: Fs, p: Path) {
    forall q :: p <= q ==> Lookup(s, q) == Lookup(fs, q)
  }

  /** The same backups are listed, and each holds what it held. */
  ghost predicate SameBackups(fs: Fs, s: Fs, dir: Path) {
    Listed(s, dir) == Listed(fs, dir) && forall p :: p in Listed(fs, dir) ==> SameTree(fs, s, p)
  }

  /** Staging cannot be made: a file is in its place, or something on the way is not a directory. */
  ghost predicate Blocked(fs: Fs, staging: Path)
    requires staging != []
  {
    (staging in fs && fs[staging].File?) || Obstructed(fs, Parent(staging))
  }

  /** The top-level names of `root` that go into a backup staged at `staging`. */
  ghost function SourceNames(fs: Fs, root: Path, staging: Path, includeLogs: bool): set<string> {
    Kept(WithDirs(fs, staging), root, ExcludedTopLevel(includeLogs), true)
  }

  /** At `q` before the rename: what was there, nothing any more in staging, room made for staging, or a
      node of the kind the source has at the same place. */
  ghost predicate MidwayAt(fs: Fs, s: Fs, base: Fs, root: Path, staging: Path, names: set<string>, q: Path) {
    || Lookup(s, q) == Lookup(fs, q)
    || (staging <= q && q !in s)
    || (q <= staging && (q !in fs || q == staging) && Lookup(s, q) == Some(Dir))
    || (staging <= q && q in s && Included(base, root, staging, names, q[|staging|..])
        && s[q].Dir? == base[root + q[|staging|..]].Dir?)
  }

  /** A state `create` may be in before the rename. */
  ghost predicate Midway(fs: Fs, s: Fs, root: Path, staging: Path, includeLogs: bool)
    requires staging != []
  {
    && WellFormed(s) && (Blocked(fs, staging) ==> s == fs)
    && forall q :: MidwayAt(fs, s, WithDirs(fs, staging), root, staging, SourceNames(fs, root, staging, includeLogs), q)
  }

  /** The copied part of `root` has a directory with a backup name right below `r`. */
  ghost predicate SourceLists(base: Fs, root: Path, guard: Path, names: set<string>, r: Path) {
    exists n :: BackupTime(n).Some? && Included(base, root, guard, names, r + [n]) && base[root + (r + [n])].Dir?
  }

  /** Staging cannot be made at all; or no missing parent of the target looks like a backup, no listed
      backup holds staging or lies in it, and if `dir` itself lies in staging, the source has no backup
      name at that place. */
  ghost predicate Quiet(fs: Fs, root: Path, dir: Path, target: Path, includeLogs: bool)
    requires target != []
  {
    var staging := StagingFor(target);
    || Blocked(fs, staging)
    || (&& NoListedRoom(fs, dir, target)
        && (forall p :: p in Listed(fs, dir) ==> !(p <= staging) && !(staging <= p))
        && (staging <= dir ==>
              !SourceLists(WithDirs(fs, staging), root, staging, SourceNames(fs, root, staging, includeLogs), dir[|staging|..])))
  }

  /** Every state before the rename has the same backups, each intact, if and only if the target is
      `Quiet`. */
  lemma BeforeRenameIff(fs: Fs, root: Path, dir: Path, target: Path, includeLogs: bool)
    requires WellFormed(fs) && target != []
    ensures (forall s :: Midway(fs, s, root, StagingFor(target), includeLogs) ==> SameBackups(fs, s, dir))
            <==> Quiet(fs, root, dir, target, includeLogs)
  {
    if Quiet(fs, root, dir, target, includeLogs) {
      forall s | Midway(fs, s, root, StagingFor(target), includeLogs) ensures SameBackups(fs, s, dir) {
        QuietKeeps(fs, s, root, dir, target, includeLogs);
      }
    } else {
      LoudChanges(fs, root, dir, target, includeLogs);
    }
  }

  lemma Comparable(a: Path, b: Path, q: Path)
    requires a <= q && b <= q
    ensures a <= b || b <= a
  {
    assert a == q[..|a|] && b == q[..|b|];
  }

  lemma QuietKeeps(fs: Fs, s: Fs, root: Path, dir: Path, target: Path, includeLogs: bool)
    requires target != [] && Quiet(fs, root, dir, target, includeLogs) && Midway(fs, s, root, StagingFor(target), includeLogs)
    ensures SameBackups(fs, s, dir)
  {
    var staging := StagingFor(target);
    if !Blocked(fs, staging) {
      forall p | p in Listed(fs, dir) ensures SameTree(fs, s, p) {
        QuietTree(fs, s, root, dir, target, includeLogs, p);
      }
      forall p | p in Listed(s, dir) ensures p in Listed(fs, dir) {
        QuietShowsNothing(fs, s, root, dir, target, includeLogs, p);
      }
      forall p | p in Listed(fs, dir) ensures p in Listed(s, dir) {
        assert Lookup(s, p) == Lookup(fs, p);
      }
    }
  }

  lemma QuietTree(fs: Fs, s: Fs, root: Path, dir: Path, target: Path, includeLogs: bool, p: Path)
    requires target != [] && Midway(fs, s, root, StagingFor(target), includeLogs)
    requires p in fs && !(p <= StagingFor(target)) && !(StagingFor(target) <= p)
    ensures SameTree(fs, s, p)
  {
    var staging := StagingFor(target);
    forall q | p <= q ensures Lookup(s, q) == Lookup(fs, q) {
      assert MidwayAt(fs, s, WithDirs(fs, staging), root, staging, SourceNames(fs, root, staging, includeLogs), q);
      assert !(staging <= q) by { if staging <= q { Comparable(p, staging, q); } }
      assert !(q <= staging);
    }
  }

  lemma QuietShowsNothing(fs: Fs, s: Fs, root: Path, dir: Path, target: Path, includeLogs: bool, p: Path)
    requires target != [] && Midway(fs, s, root, StagingFor(target), includeLogs) && NoListedRoom(fs, dir, target)
    requires StagingFor(target) <= dir ==>
               !SourceLists(WithDirs(fs, StagingFor(target)), root, StagingFor(target),
                            SourceNames(fs, root, StagingFor(target), includeLogs), dir[|StagingFor(target)|..])
    requires p in Listed(s, dir)
    ensures p in Listed(fs, dir)
  {
    var staging := StagingFor(target);
    var base, names := WithDirs(fs, staging), SourceNames(fs, root, staging, includeLogs);
    StagingIsNoListing(dir, target);
    AncestorsShared(target, p);
    assert MidwayAt(fs, s, base, root, staging, names, p);
    if staging <= p { CopiedNameIsListed(s, base, root, dir, staging, names, p); }
  }

  lemma CopiedNameIsListed(s: Fs, base: Fs, root: Path, dir: Path, staging: Path, names: set<string>, p: Path)
    requires staging <= p && p != staging && p in Listed(s, dir)
    ensures staging <= dir
    ensures Included(base, root, staging, names, p[|staging|..]) && base[root + p[|staging|..]].Dir? ==>
              SourceLists(base, root, staging, names, dir[|staging|..])
  {
    assert staging <= dir by { if !(staging <= dir) { EntersAtStaging(staging, dir, p); } }
    var r, n := dir[|staging|..], p[|dir|];
    assert p == dir + [n] && p[|staging|..] == r + [n];
  }

  /** `fs` once everything at and below `p` is gone. */
  ghost function Without(fs: Fs, p: Path): Fs {
    map q | q in fs && !(p <= q) :: fs[q]
  }

  lemma WithoutWellFormed(fs: Fs, p: Path)
    requires WellFormed(fs) && p != []
    ensures WellFormed(Without(fs, p))
  {
    var s := Without(fs, p);
    forall q | q in s && q != [] ensures Placed(s, q) {
      assert Placed(fs, q);
      assert Parent(q) <= q && (p <= Parent(q) ==> p <= q);
    }
  }

  /** After the removal of leftovers. */
  lemma RemovedIsMidway(fs: Fs, root: Path, staging: Path, includeLogs: bool)
    requires WellFormed(fs) && staging != [] && !Blocked(fs, staging)
    ensures Midway(fs, Without(fs, staging), root, staging, includeLogs)
  {
    WithoutWellFormed(fs, staging);
    var s := Without(fs, staging);
    forall q ensures Lookup(s, q) == Lookup(fs, q) || (staging <= q && q !in s) {
    }
  }

  /** Once staging is there. */
  lemma RoomIsMidway(fs: Fs, root: Path, staging: Path, includeLogs: bool)
    requires WellFormed(fs) && staging != [] && !Blocked(fs, staging)
    ensures Midway(fs, WithDirs(fs, staging), root, staging, includeLogs)
  {
    var s := WithDirs(fs, staging);
    WithDirsWellFormed(fs, staging);
    forall q ensures MidwayAt(fs, s, s, root, staging, SourceNames(fs, root, staging, includeLogs), q) {
      WithDirsLookup(fs, staging, q);
    }
  }

  /** Once the copy is done, nothing but it being in staging. */
  ghost function Staged(base: Fs, root: Path, staging: Path, names: set<string>): Fs {
    (map q | q in base && !(staging <= q) :: base[q])
    + (map q | q in StagedPaths(base, root, staging, names) :: base[Rebase(staging, root, q)])
  }

  ghost function StagedPaths(base: Fs, root: Path, staging: Path, names: set<string>): (places: set<Path>)
    ensures forall q :: q in places <==> staging <= q && Included(base, root, staging, names, q[|staging|..])
  {
    var places := set q | q in base && root <= q && Included(base, root, staging, names, q[|root|..]) :: Rebase(root, staging, q);
    assert forall q :: q in places <==> staging <= q && Included(base, root, staging, names, q[|staging|..]) by {
      forall q ensures q in places <==> staging <= q && Included(base, root, staging, names, q[|staging|..]) {
        if staging <= q && Included(base, root, staging, names, q[|staging|..]) {
          RebaseBack(staging, root, q);
          var at := Rebase(staging, root, q);
          assert at in base && at[|root|..] == q[|staging|..] && Rebase(root, staging, at) == q;
        }
        if q in places {
          var at :| at in base && root <= at && Included(base, root, staging, names, at[|root|..]) && q == Rebase(root, staging, at);
          assert q[|staging|..] == at[|root|..];
        }
      }
    }
    places
  }

  lemma StagedLookup(base: Fs, root: Path, staging: Path, names: set<string>, q: Path)
    ensures Lookup(Staged(base, root, staging, names), q)
            == if !(staging <= q) then Lookup(base, q)
               else if Included(base, root, staging, names, q[|staging|..]) then Some(base[root + q[|staging|..]]) else None
  {
  }

  lemma ParentIncluded(fs: Fs, from: Path, guard: Path, names: set<string>, r: Path)
    requires WellFormed(fs) && r != [] && Included(fs, from, guard, names, r)
    ensures Included(fs, from, guard, names, Parent(r)) && fs[from + Parent(r)] == Dir
  {
    var k := |r| - 1;
    IncludedAbove(fs, from, guard, names, r, k);
    AncestorsAreDirs(fs, from + r, |from| + k);
    assert (from + r)[..|from| + k] == from + r[..k];
  }

  lemma StagedWellFormed(base: Fs, root: Path, staging: Path, names: set<string>)
    requires WellFormed(base) && staging != [] && Placed(base, staging)
    ensures WellFormed(Staged(base, root, staging, names))
  {
    var s := Staged(base, root, staging, names);
    StagedLookup(base, root, staging, names, []);
    forall q | q in s && q != [] ensures Placed(s, q) {
      StagedLookup(base, root, staging, names, q);
      StagedLookup(base, root, staging, names, Parent(q));
      if staging <= q && q != staging {
        assert staging <= Parent(q) && Parent(q)[|staging|..] == Parent(q[|staging|..]);
        ParentIncluded(base, root, staging, names, q[|staging|..]);
      } else if q != staging {
        assert Placed(base, q) && Parent(q) <= q;
        assert staging <= Parent(q) ==> staging <= q;
      }
    }
  }

  lemma StagedIsMidway(fs: Fs, root: Path, staging: Path, includeLogs: bool)
    requires WellFormed(fs) && staging != [] && !Blocked(fs, staging)
    ensures Midway(fs, Staged(WithDirs(fs, staging), root, staging, SourceNames(fs, root, staging, includeLogs)), root, staging, includeLogs)
  {
    var base, names := WithDirs(fs, staging), SourceNames(fs, root, staging, includeLogs);
    var s := Staged(base, root, staging, names);
    WithDirsWellFormed(fs, staging);
    assert staging in base by { WithDirsLookup(fs, staging, staging); }
    assert Placed(base, staging);
    StagedWellFormed(base, root, staging, names);
    forall q ensures MidwayAt(fs, s, base, root, staging, names, q) {
      StagedLookup(base, root, staging, names, q);
      WithDirsLookup(fs, staging, q);
    }
  }

  /** Otherwise one of three states gives it away: leftovers removed, staging made, or the copy done. */
  lemma LoudChanges(fs: Fs, root: Path, dir: Path, target: Path, includeLogs: bool)
    requires WellFormed(fs) && target != [] && !Quiet(fs, root, dir, target, includeLogs)
    ensures exists s :: Midway(fs, s, root, StagingFor(target), includeLogs) && !SameBackups(fs, s, dir)
  {
    var staging := StagingFor(target);
    RemovedIsMidway(fs, root, staging, includeLogs);
    RoomIsMidway(fs, root, staging, includeLogs);
    StagedIsMidway(fs, root, staging, includeLogs);
    if p :| p in Listed(fs, dir) && (p <= staging || staging <= p) {
      StagingMeetsBackup(fs, dir, staging, p);
    } else if q :| q <= target && q != target && q !in fs && Listable(dir, q) {
      RoomIsListed(fs, dir, target, q);
    } else {
      CopyIsListed(fs, root, dir, staging, SourceNames(fs, root, staging, includeLogs));
    }
  }

  lemma StagingMeetsBackup(fs: Fs, dir: Path, staging: Path, p: Path)
    requires WellFormed(fs) && p in Listed(fs, dir) && (p <= staging || staging <= p)
    ensures !SameBackups(fs, Without(fs, staging), dir) || !SameBackups(fs, WithDirs(fs, staging), dir)
  {
    WithDirsLookup(fs, staging, staging);
    if staging <= p {
      assert p !in Listed(Without(fs, staging), dir);
    } else if staging in fs {
      assert Lookup(Without(fs, staging), staging) != Lookup(fs, staging);
      assert !SameTree(fs, Without(fs, staging), p);
    } else {
      assert Lookup(WithDirs(fs, staging), staging) != Lookup(fs, staging);
      assert !SameTree(fs, WithDirs(fs, staging), p);
    }
  }

  lemma RoomIsListed(fs: Fs, dir: Path, target: Path, q: Path)
    requires WellFormed(fs) && target != [] && q <= target && q != target && q !in fs && Listable(dir, q)
    ensures q in Listed(WithDirs(fs, StagingFor(target)), dir) && q !in Listed(fs, dir)
  {
    assert q <= StagingFor(target) by { assert q == Parent(target)[..|q|]; }
    WithDirsLookup(fs, StagingFor(target), q);
  }

  lemma CopyIsListed(fs: Fs, root: Path, dir: Path, staging: Path, names: set<string>)
    requires staging <= dir && SourceLists(WithDirs(fs, staging), root, staging, names, dir[|staging|..])
    requires forall p :: p in Listed(fs, dir) ==> !(staging <= p)
    ensures Listed(Staged(WithDirs(fs, staging), root, staging, names), dir) != Listed(fs, dir)
  {
    var base, r := WithDirs(fs, staging), dir[|staging|..];
    var n :| BackupTime(n).Some? && Included(base, root, staging, names, r + [n]) && base[root + (r + [n])].Dir?;
    var p := dir + [n];
    assert staging <= p && p[|staging|..] == r + [n] && p[|dir|] == n;
    StagedLookup(base, root, staging, names, p);
    assert p in Listed(Staged(base, root, staging, names), dir);
  }

  /** For instance, a destination below a backup directory that does not exist yet is shown as soon as
      room is made for it. */
  lemma RoomListedExample(fs: Fs, dir: Path)
    requires WellFormed(fs) && dir + ["backup-7"] !in fs
    ensures Listed(WithDirs(fs, StagingFor(dir + ["backup-7", "x"])), dir) != Listed(fs, dir)
  {
    var target, q := dir + ["backup-7", "x"], dir + ["backup-7"];
    BackupSeven();
    assert q[|dir|] == "backup-7" && q == target[..|q|];
    RoomIsListed(fs, dir, target, q);
  }

  /** And listing a directory that is also the staging name: the leftover removal empties it, although no
      missing parent is in play. */
  lemma StagingHoldsListExample(fs: Fs, root: Path, includeLogs: bool)
    requires WellFormed(fs) && Lookup(fs, [".t.partial", "backup-7"]) == Some(Dir)
    ensures var dir, target := [".t.partial"], ["t"];
            && NoListedRoom(fs, dir, target) && Midway(fs, Without(fs, dir), root, StagingFor(target), includeLogs)
            && Listed(Without(fs, dir), dir) != Listed(fs, dir)
  {
    var dir, target, p := [".t.partial"], ["t"], [".t.partial", "backup-7"];
    assert "." + "t" + ".partial" == ".t.partial";
    assert StagingFor(target) == Parent(target) + [".t.partial"] == dir;
    BackupSeven();
    assert p in Listed(fs, dir) && dir <= p;
    assert Placed(fs, p) && Parent(p) == dir && Placed(fs, dir);
    NotObstructedAbove(fs, dir);
    RemovedIsMidway(fs, root, dir, includeLogs);
    assert p !in Without(fs, dir);
  }

  lemma NotObstructedAbove(fs: Fs, p: Path)
    requires WellFormed(fs) && p != [] && p in fs
    ensures !Obstructed(fs, Parent(p))
  {
    assert Placed(fs, p);
    ObstructedAt(fs, Parent(p));
  }

  // ---- What the replacement of an existing target may leave ----

  /** There is nothing at the target to remove, or no listed backup is there, above it or below it. */
  ghost predicate Spared(fs: Fs, dir: Path, target: Path) {
    target in fs && !fs[target].File? ==> forall p :: p in Listed(fs, dir) ==> !(target <= p) && !(p <= target)
  }

  /** Every state of the removal of an existing target has the same backups, each intact, if and only if
      they are `Spared`; for a fresh target there is nothing to remove. */
  lemma ReplacementIff(fs: Fs, dir: Path, target: Path)
    requires WellFormed(fs) && target != []
    ensures (forall s :: WellFormed(s) && Pruned(fs, s, target) ==> SameBackups(fs, s, dir)) <==> Spared(fs, dir, target)
  {
    if Spared(fs, dir, target) {
      forall s | Pruned(fs, s, target) ensures SameBackups(fs, s, dir) {
        SparedKeeps(fs, fs, s, dir, target);
      }
    } else {
      var p :| p in Listed(fs, dir) && (target <= p || p <= target);
      WithoutWellFormed(fs, target);
      assert Pruned(fs, Without(fs, target), target);
      assert target <= p ==> p !in Listed(Without(fs, target), dir);
      assert Lookup(Without(fs, target), target) != Lookup(fs, target);
      assert p <= target ==> !SameTree(fs, Without(fs, target), p);
    }
  }

  lemma SameLookups(a: Fs, b: Fs)
    requires forall q :: Lookup(a, q) == Lookup(b, q)
    ensures a == b
  {
    forall q ensures q in a <==> q in b {
      assert Lookup(a, q) == Lookup(b, q);
    }
    forall q | q in a ensures a[q] == b[q] {
      assert Lookup(a, q) == Lookup(b, q);
    }
  }

  lemma SparedKeeps(fs: Fs, staged: Fs, s: Fs, dir: Path, target: Path)
    requires SameBackups(fs, staged, dir) && Spared(fs, dir, target) && Pruned(staged, s, target)
    requires WellFormed(staged) && Lookup(staged, target) == Lookup(fs, target)
    ensures SameBackups(fs, s, dir)
  {
    if target !in staged {
      AbsentMeansEmpty(staged, target);
      forall q ensures Lookup(s, q) == Lookup(staged, q) {
        assert target <= q && q in s ==> Lookup(s, q) == Lookup(staged, q);
      }
      SameLookups(s, staged);
    } else if !staged[target].File? {
      forall p | p in Listed(fs, dir) ensures SameTree(fs, s, p) {
        forall q | p <= q ensures Lookup(s, q) == Lookup(fs, q) {
          assert !(target <= q) by { if target <= q { Comparable(p, target, q); } }
          assert SameTree(fs, staged, p);
        }
      }
      forall p ensures p in Listed(s, dir) <==> p in Listed(fs, dir) {
        assert Lookup(s, p) == Lookup(staged, p) || p !in s;
        assert p in Listed(fs, dir) ==> SameTree(fs, s, p) && p <= p;
      }
    }
  }

  /** For instance, two backups in the same second share the default target: the second one takes the
      first apart, entry by entry, before it is replaced. */
  lemma SameSecondExample(fs: Fs, dir: Path, now: nat, f: string)
    requires WellFormed(fs) && now < 0x1_0000_0000_0000_0000
    requires var target := dir + [BackupId(now)];
             Lookup(fs, target) == Some(Dir) && target + [f] in fs && fs[target + [f]].File?
    ensures var target := dir + [BackupId(now)];
            var half, gone := fs - {target + [f]}, Without(fs, target);
            && WellFormed(half) && Pruned(fs, half, target) && target in Listed(half, dir) && !SameTree(fs, half, target)
            && WellFormed(gone) && Pruned(fs, gone, target) && target in Listed(fs, dir) && target !in Listed(gone, dir)
  {
    var target := dir + [BackupId(now)];
    DefaultTargetListable(dir, now);
    WithoutWellFormed(fs, target);
    OneFileGone(fs, target, f);
  }

  lemma OneFileGone(fs: Fs, target: Path, f: string)
    requires WellFormed(fs) && Lookup(fs, target) == Some(Dir) && target + [f] in fs && fs[target + [f]].File?
    ensures var half := fs - {target + [f]};
            WellFormed(half) && Pruned(fs, half, target) && Lookup(half, target) == Some(Dir) && !SameTree(fs, half, target)
  {
    var half, x := fs - {target + [f]}, target + [f];
    forall q | q in half && q != [] ensures Placed(half, q) {
      assert Placed(fs, q);
    }
    assert x != target && x != [];
    assert target <= x && Lookup(half, x) != Lookup(fs, x);
  }

  /** The default target is always `Quiet` and `Undisturbed`; it is `Spared` exactly when no backup was
      made in the same second. */
  lemma DefaultTarget(fs: Fs, root: Path, dir: Path, now: nat, includeLogs: bool)
    requires now < 0x1_0000_0000_0000_0000
    ensures var target := dir + [BackupId(now)];
            && Quiet(fs, root, dir, target, includeLogs) && Undisturbed(fs, dir, target)
            && (Spared(fs, dir, target) <==> Lookup(fs, target) != Some(Dir))
  {
    var target := dir + [BackupId(now)];
    DefaultTargetListable(dir, now);
    StagingIsNoListing(dir, target);
    forall q | q <= target && q != target ensures !Listable(dir, q) {
      assert |q| <= |dir|;
    }
    forall p | p in Listed(fs, dir)
      ensures !(p <= StagingFor(target)) && !(StagingFor(target) <= p) && (target <= p || p <= target ==> p == target)
    {
      assert |p| == |StagingFor(target)| && p != StagingFor(target);
    }
    assert Lookup(fs, target) == Some(Dir) <==> target in Listed(fs, dir);
    assert target <= target;
  }

  // ---- create ----

  /** `target` holds exactly the included part of `root` as it stood in `base`. */
  ghost predicate Complete(fs: Fs, target: Path, base: Fs, root: Path, guard: Path, names: set<string>) {
    forall p :: target <= p ==>
      var r := p[|target|..];
      Lookup(fs, p) == if Included(base, root, guard, names, r) then Some(base[root + r]) else None
  }

  /** Lines 153-160: staging made, filled, and still private. `left` is the disk once leftovers of an
      earlier crash were removed; the copy shows `base`, the disk once staging existed. */
  method Stage(disk: Disk, root: Path, target: Path, includeLogs: bool)
    returns (ok: bool, ghost left: Fs, ghost base: Fs)
    requires disk.Valid() && target != [] && !(StagingFor(target) <= root)
    modifies disk
    ensures disk.Valid() && old(disk.trail) <= disk.trail
    ensures Midway(old(disk.fs), disk.fs, root, StagingFor(target), includeLogs)
    ensures AllMidway(disk.trail, |old(disk.trail)|, old(disk.fs), root, StagingFor(target), includeLogs)
    ensures WellFormed(left) && SameOutside(old(disk.fs), left, StagingFor(target))
    ensures StagingFor(target) !in old(disk.fs) ==> left == old(disk.fs)
    ensures ok ==> base == WithDirs(left, StagingFor(target))
                   && Lookup(base, StagingFor(target)) == Some(Dir) && Lookup(base, root) == Some(Dir)
                   && Copied(base, disk.fs, root, StagingFor(target), StagingFor(target), Kept(base, root, ExcludedTopLevel(includeLogs), true))
  {
    var staging := StagingFor(target);
    ghost var fs0 := disk.fs;
    ok, left := MakeStaging(disk, root, staging, includeLogs);
    base := disk.fs;
    if !ok {
      return;
    }
    assert Placed(base, staging);
    CopyMidway(fs0, left, base, root, staging, includeLogs);
    ApartIff(base, root, staging, Kept(base, root, ExcludedTopLevel(includeLogs), true));
    ok := CopyTree(disk, root, staging, ExcludedTopLevel(includeLogs), staging, true);
    if !ok {
      PrunedMidway(fs0, disk.fs, root, staging, includeLogs);
      var _ := disk.RemoveDirAll(staging);
    }
  }

  /** Lines 154-155: leftovers removed, if they can be, and staging made. */
  method MakeStaging(disk: Disk, ghost root: Path, staging: Path, ghost includeLogs: bool) returns (ok: bool, ghost left: Fs)
    requires disk.Valid() && staging != []
    modifies disk
    ensures disk.Valid() && old(disk.trail) <= disk.trail
    ensures Midway(old(disk.fs), disk.fs, root, staging, includeLogs)
    ensures AllMidway(disk.trail, |old(disk.trail)|, old(disk.fs), root, staging, includeLogs)
    ensures WellFormed(left) && Pruned(old(disk.fs), left, staging)
    ensures staging !in old(disk.fs) ==> left == old(disk.fs)
    ensures ok ==> !Blocked(old(disk.fs), staging) && disk.fs == WithDirs(left, staging) && Lookup(disk.fs, staging) == Some(Dir)
  {
    ghost var fs0 := disk.fs;
    FirstIsMidway(fs0, root, staging, includeLogs);
    BlockedObstructs(fs0, staging);
    PrunedMidway(fs0, fs0, root, staging, includeLogs);
    ok := disk.RemoveDirAll(staging);
    left := disk.fs;
    RoomMidway(fs0, left, root, staging, includeLogs);
    ok := disk.CreateDirAll(staging);
  }

  ghost predicate AllMidway(trail: seq<Fs>, lo: nat, fs: Fs, root: Path, staging: Path, includeLogs: bool)
    requires staging != []
  {
    forall k :: lo <= k < |trail| ==> Midway(fs, trail[k], root, staging, includeLogs)
  }

  lemma FirstIsMidway(fs: Fs, root: Path, staging: Path, includeLogs: bool)
    requires WellFormed(fs) && staging != []
    ensures Midway(fs, fs, root, staging, includeLogs)
  {
  }

  lemma BlockedObstructs(fs: Fs, staging: Path)
    requires WellFormed(fs) && staging != []
    ensures Blocked(fs, staging) ==> Obstructed(fs, staging) && (staging !in fs || fs[staging].File?)
  {
    if Obstructed(fs, Parent(staging)) {
      var a :| a <= Parent(staging) && a in fs && !fs[a].Dir?;
      assert a <= staging;
      if staging in fs { NotObstructedAbove(fs, staging); }
    }
  }

  /** Removals in staging lead from one such state to another. */
  lemma PrunedMidway(fs: Fs, mid: Fs, root: Path, staging: Path, includeLogs: bool)
    requires staging != [] && Midway(fs, mid, root, staging, includeLogs)
    ensures !Blocked(fs, staging) ==>
              forall s :: WellFormed(s) && Pruned(mid, s, staging) ==> Midway(fs, s, root, staging, includeLogs)
  {
    if !Blocked(fs, staging) {
      var base, names := WithDirs(fs, staging), SourceNames(fs, root, staging, includeLogs);
      forall s | WellFormed(s) && Pruned(mid, s, staging) ensures Midway(fs, s, root, staging, includeLogs) {
        forall q ensures MidwayAt(fs, s, base, root, staging, names, q) {
          assert MidwayAt(fs, mid, base, root, staging, names, q);
          assert Lookup(s, q) == Lookup(mid, q) || (staging <= q && q !in s);
        }
      }
    }
  }

  /** So does making staging. */
  lemma RoomMidway(fs: Fs, left: Fs, root: Path, staging: Path, includeLogs: bool)
    requires WellFormed(fs) && staging != [] && Pruned(fs, left, staging)
    ensures !Blocked(fs, staging) ==>
              forall s :: WellFormed(s) && OnlyRoom(left, s, staging) ==> Midway(fs, s, root, staging, includeLogs)
  {
    if !Blocked(fs, staging) {
      var base, names := WithDirs(fs, staging), SourceNames(fs, root, staging, includeLogs);
      forall s | WellFormed(s) && OnlyRoom(left, s, staging) ensures Midway(fs, s, root, staging, includeLogs) {
        forall q ensures MidwayAt(fs, s, base, root, staging, names, q) {
          RoomMidwayAt(fs, left, s, base, root, staging, names, q);
        }
      }
    }
  }

  lemma RoomMidwayAt(fs: Fs, left: Fs, s: Fs, base: Fs, root: Path, staging: Path, names: set<string>, q: Path)
    requires Pruned(fs, left, staging)
    requires Lookup(s, q) == Lookup(left, q) || (q !in left && q <= staging && Lookup(s, q) == Some(Dir))
    ensures MidwayAt(fs, s, base, root, staging, names, q)
  {
    assert Lookup(left, q) == Lookup(fs, q) || (staging <= q && q !in left);
    assert staging <= q && q <= staging ==> q == staging;
  }

  /** What the copy reads is what it would have read at first, with room made for staging. */
  lemma SourceAsAtFirst(fs: Fs, left: Fs, root: Path, staging: Path, includeLogs: bool, r: Path)
    requires WellFormed(fs) && WellFormed(left) && Pruned(fs, left, staging) && !(staging <= root)
    ensures !Fenced(root, staging, root + r) ==> Lookup(WithDirs(left, staging), root + r) == Lookup(WithDirs(fs, staging), root + r)
    ensures SourceNames(left, root, staging, includeLogs) == SourceNames(fs, root, staging, includeLogs)
  {
    forall q | !(staging <= q) || q == staging ensures q in WithDirs(left, staging) <==> q in WithDirs(fs, staging) {
      WithDirsLookup(left, staging, q);
      WithDirsLookup(fs, staging, q);
      assert !(staging <= q) ==> Lookup(left, q) == Lookup(fs, q);
    }
    forall n ensures n in Children(WithDirs(left, staging), root) <==> n in Children(WithDirs(fs, staging), root) {
      ChildrenAre(WithDirs(left, staging), root, n);
      ChildrenAre(WithDirs(fs, staging), root, n);
      FenceAtStaging(root, staging, [n]);
    }
    WithDirsLookup(left, staging, root + r);
    WithDirsLookup(fs, staging, root + r);
    FenceAtStaging(root, staging, r);
    assert !(staging <= root + r) ==> Lookup(left, root + r) == Lookup(fs, root + r);
  }

  lemma FenceAtStaging(root: Path, staging: Path, r: Path)
    requires !(staging <= root)
    ensures staging <= root + r ==> Fenced(root, staging, root + r) && (|r| == 1 ==> staging == root + r)
  {
    if |staging| <= |root| { assert (root + r)[..|staging|] == root[..|staging|]; }
  }

  /** And so does the copy. */
  lemma CopyMidway(fs: Fs, left: Fs, base: Fs, root: Path, staging: Path, includeLogs: bool)
    requires WellFormed(fs) && WellFormed(left) && staging != [] && Pruned(fs, left, staging) && !(staging <= root)
    requires base == WithDirs(left, staging)
    ensures !Blocked(fs, staging) ==>
              forall s :: WellFormed(s) && Partway(base, s, root, staging, staging, Kept(base, root, ExcludedTopLevel(includeLogs), true))
                          ==> Midway(fs, s, root, staging, includeLogs)
  {
    if !Blocked(fs, staging) {
      var base0, names := WithDirs(fs, staging), SourceNames(fs, root, staging, includeLogs);
      SourceAsAtFirst(fs, left, root, staging, includeLogs, []);
      forall s | WellFormed(s) && Partway(base, s, root, staging, staging, names) ensures Midway(fs, s, root, staging, includeLogs) {
        forall q ensures MidwayAt(fs, s, base0, root, staging, names, q) {
          assert PartwayAt(base, s, root, staging, staging, names, q);
          if Lookup(s, q) == Lookup(base, q) {
            WithDirsLookup(left, staging, q);
            RoomMidwayAt(fs, left, s, base0, root, staging, names, q);
          } else if staging <= q {
            SourceAsAtFirst(fs, left, root, staging, includeLogs, q[|staging|..]);
          }
        }
      }
    }
  }

  lemma MidwayIsRoom(fs: Fs, s: Fs, root: Path, staging: Path, includeLogs: bool)
    requires staging != [] && Midway(fs, s, root, staging, includeLogs)
    ensures SameButRoom(fs, s, staging)
  {
    forall q | !(staging <= q)
      ensures Lookup(s, q) == Lookup(fs, q) || (q !in fs && q <= staging && Lookup(s, q) == Some(Dir))
    {
      assert MidwayAt(fs, s, WithDirs(fs, staging), root, staging, SourceNames(fs, root, staging, includeLogs), q);
    }
  }

  lemma RoomTrans(a: Fs, b: Fs, root: Path)
    requires SameOutside(a, b, root)
    ensures SameButRoom(a, b, root)
    ensures forall c :: OnlyRoom(b, c, root) ==> SameButRoom(a, c, root)
  {
    forall c | OnlyRoom(b, c, root) ensures SameButRoom(a, c, root) {
      forall q | !(root <= q)
        ensures Lookup(c, q) == Lookup(a, q) || (q !in a && q <= root && Lookup(c, q) == Some(Dir))
      {
        assert Lookup(b, q) == Lookup(a, q);
      }
    }
  }

  lemma OutsideThenRoom(a: Fs, b: Fs, root: Path)
    requires SameButRoom(a, b, root)
    ensures forall c :: SameOutside(b, c, root) ==> SameButRoom(a, c, root)
  {
    forall c | SameOutside(b, c, root) ensures SameButRoom(a, c, root) {
      forall q | !(root <= q)
        ensures Lookup(c, q) == Lookup(a, q) || (q !in a && q <= root && Lookup(c, q) == Some(Dir))
      {
        assert Lookup(c, q) == Lookup(b, q);
      }
    }
  }

  /** Lines 171-178: publish by renaming; a target that is in the way is removed first. */
  method Publish(disk: Disk, staging: Path, target: Path) returns (ok: bool)
    requires disk.Valid() && target != [] && staging == StagingFor(target) && Lookup(disk.fs, staging) == Some(Dir)
    modifies disk
    ensures disk.Valid() && old(disk.trail) <= disk.trail
    ensures ok ==> forall p :: target <= p ==> Lookup(disk.fs, p) == Lookup(old(disk.fs), Rebase(target, staging, p))
    ensures ok ==> forall p :: !(target <= p) ==> Lookup(disk.fs, p) == if staging <= p then None else Lookup(old(disk.fs), p)
    ensures target !in old(disk.fs) ==> disk.trail == if ok then old(disk.trail) + [disk.fs] else old(disk.trail)
    ensures target !in old(disk.fs) && !ok ==> disk.fs == old(disk.fs)
    ensures forall k :: |old(disk.trail)| <= k < |disk.trail| - (if ok then 1 else 0) ==> Pruned(old(disk.fs), disk.trail[k], target)
  {
    SiblingsApart(target);
    ghost var fs0 := disk.fs;
    assert Placed(fs0, staging) && Placed(fs0, target);
    ok := disk.Rename(staging, target);
    if !ok && target in disk.fs {
      ok := disk.RemoveDirAll(target);
      if !ok {
        return;
      }
      RemovalLeavesSibling(fs0, disk.fs, staging, target);
      ghost var fs1 := disk.fs;
      ok := disk.Rename(staging, target);
      if ok {
        forall p ensures Lookup(disk.fs, p)
                == if target <= p then Lookup(fs0, Rebase(target, staging, p)) else if staging <= p then None else Lookup(fs0, p)
        {
          MovedLookup(fs1, staging, target, p);
          if target <= p { RebaseBack(target, staging, p); PrefixesApart(target, staging, Rebase(target, staging, p)); }
        }
      }
      return;
    }
    if ok {
      forall p ensures Lookup(disk.fs, p)
              == if target <= p then Lookup(fs0, Rebase(target, staging, p)) else if staging <= p then None else Lookup(fs0, p)
      {
        MovedLookup(fs0, staging, target, p);
      }
    }
  }

  lemma PrefixesApart(a: Path, b: Path, p: Path)
    requires |a| == |b| && a != b && b <= p
    ensures !(a <= p)
  {
  }

  lemma RemovalLeavesSibling(fs: Fs, fs': Fs, staging: Path, target: Path)
    requires target != [] && staging == StagingFor(target) && WellFormed(fs) && Lookup(fs, staging) == Some(Dir)
    requires SameOutside(fs, fs', target) && WellFormed(fs')
    ensures Lookup(fs', staging) == Some(Dir) && Placed(fs', target)
  {
    SiblingsApart(target);
    assert Placed(fs, staging);
    assert !(target <= Parent(target));
  }

  /** Nothing an earlier crash left in the staging directory lies outside what the copy writes. */
  ghost predicate NoStrays(left: Fs, base: Fs, root: Path, staging: Path, names: set<string>) {
    forall q :: staging <= q && q in left ==> Included(base, root, staging, names, q[|staging|..])
  }

  /** The removal of leftovers may fail unnoticed, so a finished `create` published exactly the
      included part of `root` if and only if no stray was left behind. */
  lemma PublishedCompleteIff(fs: Fs, left: Fs, base: Fs, staged: Fs, root: Path, target: Path, names: set<string>)
    requires target != [] && WellFormed(left)
    requires base == WithDirs(left, StagingFor(target)) && Lookup(base, root) == Some(Dir)
    requires Copied(base, staged, root, StagingFor(target), StagingFor(target), names)
    requires forall p :: target <= p ==> Lookup(fs, p) == Lookup(staged, Rebase(target, StagingFor(target), p))
    ensures Complete(fs, target, base, root, StagingFor(target), names) <==> NoStrays(left, base, root, StagingFor(target), names)
  {
    var staging := StagingFor(target);
    assert root + [] == root;
    forall p | target <= p
      ensures var r, q := p[|target|..], Rebase(target, staging, p);
              && staging <= q && q[|staging|..] == r
              && Lookup(fs, p) == if Included(base, root, staging, names, r) then Some(base[root + r]) else Lookup(left, q)
    {
      var r, q := p[|target|..], Rebase(target, staging, p);
      assert staging <= q && q[|staging|..] == r;
      assert Lookup(staged, q) == Overlaid(base, root, staging, staging, names, q);
      WithDirsLookup(left, staging, q);
      if q <= staging { assert r == []; }
    }
    if Complete(fs, target, base, root, staging, names) {
      forall q | staging <= q && q in left ensures Included(base, root, staging, names, q[|staging|..]) {
        RebaseBack(staging, target, q);
        var p := Rebase(staging, target, q);
        assert p[|target|..] == q[|staging|..];
        assert Lookup(left, q) != None;
      }
    }
  }

  /** For instance: a leftover file survives the ignored removal, nothing else is in staging or in the
      source, and the published backup holds the file. */
  lemma StrayExample(content: string)
    ensures var root, target := ["r"], ["t"];
            var staging := StagingFor(target);
            var left: Fs := map[[] := Dir, root := Dir, staging := Dir, staging + ["old"] := File(content)];
            var names := Kept(left, root, ExcludedTopLevel(false), true);
            && WellFormed(left) && WithDirs(left, staging) == left && Copied(left, left, root, staging, staging, names)
            && !NoStrays(left, left, root, staging, names)
            && !Complete(Moved(left, staging, target), target, left, root, staging, names)
  {
    var root, target := ["r"], ["t"];
    var staging := StagingFor(target);
    var left: Fs := map[[] := Dir, root := Dir, staging := Dir, staging + ["old"] := File(content)];
    StrayLeft(left, root, staging, content);
    var names := Kept(left, root, ExcludedTopLevel(false), true);
    forall p | target <= p ensures Lookup(Moved(left, staging, target), p) == Lookup(left, Rebase(target, staging, p)) {
      MovedLookup(left, staging, target, p);
    }
    PublishedCompleteIff(Moved(left, staging, target), left, left, left, root, target, names);
  }

  lemma StrayLeft(left: Fs, root: Path, staging: Path, content: string)
    requires |root| == |staging| == 1 && root != staging
    requires left == map[[] := Dir, root := Dir, staging := Dir, staging + ["old"] := File(content)]
    ensures WellFormed(left) && WithDirs(left, staging) == left
    ensures var names := Kept(left, root, ExcludedTopLevel(false), true);
            Copied(left, left, root, staging, staging, names) && !NoStrays(left, left, root, staging, names)
  {
    var stray := staging + ["old"];
    assert Parent(stray) == staging && Parent(root) == [] && Parent(staging) == [];
    var names := Kept(left, root, ExcludedTopLevel(false), true);
    forall r ensures Included(left, root, staging, names, r) ==> r == [] {
      var q := root + r;
      assert q[0] == root[0] && stray[0] == staging[0];
      assert staging == [staging[0]] && root == [root[0]];
    }
    forall p ensures Lookup(left, p) == Overlaid(left, root, staging, staging, names, p) {
      assert root + [] == root;
      if staging <= p && p[|staging|..] == [] { assert p == staging; }
    }
    assert stray[|staging|..] == ["old"];
  }

  datatype BackupRef = BackupRef(id: string, path: Path, created: int)

  /** Lines 147-151: an explicit destination, else a timestamped name in the backups directory. */
  function TargetFor(dir: Path, dest: Option<Path>, now: nat): (target: Path)
    requires dest.Some? ==> dest.value != []
    ensures target != []
  {
    if dest.Some? then dest.value else dir + [BackupId(now)]
  }

  /** The recorded states from `lo` up to `hi` have the backups of `fs`, each intact. */
  ghost predicate AllKeep(trail: seq<Fs>, lo: nat, hi: nat, fs: Fs, dir: Path)
    requires hi <= |trail|
  {
    forall k :: lo <= k < hi ==> SameBackups(fs, trail[k], dir)
  }

  /** What a finished `create` says of its run: the backup is complete unless a stray was left behind. */
  ghost predicate CompleteUnlessStrays(fs: Fs, left: Fs, base: Fs, root: Path, target: Path, includeLogs: bool)
    requires target != []
  {
    var staging, names := StagingFor(target), Kept(base, root, ExcludedTopLevel(includeLogs), true);
    && base == WithDirs(left, staging)
    && (Complete(fs, target, base, root, staging, names) <==> NoStrays(left, base, root, staging, names))
  }

  /** Lines 141-185. */
  method Create(disk: Disk, root: Path, dir: Path, dest: Option<Path>, includeLogs: bool, now: nat)
    returns (result: Option<BackupRef>, ghost left: Fs, ghost base: Fs)
    requires disk.Valid()
    requires dest.Some? ==> dest.value != []
    requires !(StagingFor(TargetFor(dir, dest, now)) <= root)
    modifies disk
    ensures disk.Valid() && old(disk.trail) <= disk.trail
    ensures WellFormed(left) && SameOutside(old(disk.fs), left, StagingFor(TargetFor(dir, dest, now)))
    ensures StagingFor(TargetFor(dir, dest, now)) !in old(disk.fs) ==>
              left == old(disk.fs) && NothingUnder(left, StagingFor(TargetFor(dir, dest, now)))
    ensures result.Some? ==>
              var target := TargetFor(dir, dest, now);
              && result.value == BackupRef(BackupId(now), target, now)
              && CompleteUnlessStrays(disk.fs, left, base, root, target, includeLogs)
              && Published(old(disk.fs), disk.fs, target)
    ensures var target := TargetFor(dir, dest, now);
            Quiet(old(disk.fs), root, dir, target, includeLogs) && Spared(old(disk.fs), dir, target) ==>
              AllKeep(disk.trail, |old(disk.trail)|, |disk.trail| - (if result.Some? then 1 else 0), old(disk.fs), dir)
    ensures var target := TargetFor(dir, dest, now);
            result.Some? && Undisturbed(old(disk.fs), dir, target) ==>
              Listed(disk.fs, dir) == WithPublished(Listed(old(disk.fs), dir), dir, target)
  {
    var target := TargetFor(dir, dest, now);
    var staging := StagingFor(target);
    ghost var fs0 := disk.fs;
    if staging !in fs0 { AbsentMeansEmpty(fs0, staging); }
    var ok;
    ok, left, base := Stage(disk, root, target, includeLogs);
    ghost var staged := disk.fs;
    MidwayIsRoom(fs0, staged, root, staging, includeLogs);
    StatesKeep(fs0, staged, root, dir, target, includeLogs);
    if !ok {
      return None, left, base;
    }
    ghost var names := Kept(base, root, ExcludedTopLevel(includeLogs), true);
    RootsStay(base, staged, root, staging, staging, names);
    TargetStays(fs0, staged, target);
    ok := Publish(disk, staging, target);
    if !ok {
      return None, left, base;
    }
    PublishedCompleteIff(disk.fs, left, base, staged, root, target, names);
    RenamePublishes(fs0, staged, disk.fs, target);
    PublishedAddsItself(fs0, disk.fs, dir, target);
    return Some(BackupRef(BackupId(now), target, now)), left, base;
  }

  /** For a quiet, spared target neither the states before the rename nor those of a replacement harm a
      listed backup. */
  lemma StatesKeep(fs: Fs, staged: Fs, root: Path, dir: Path, target: Path, includeLogs: bool)
    requires WellFormed(fs) && target != [] && Midway(fs, staged, root, StagingFor(target), includeLogs)
    ensures Quiet(fs, root, dir, target, includeLogs) && Spared(fs, dir, target) ==>
              && (forall s :: Midway(fs, s, root, StagingFor(target), includeLogs) ==> SameBackups(fs, s, dir))
              && (forall s :: Pruned(staged, s, target) ==> SameBackups(fs, s, dir))
  {
    if Quiet(fs, root, dir, target, includeLogs) && Spared(fs, dir, target) {
      BeforeRenameIff(fs, root, dir, target, includeLogs);
      MidwayIsRoom(fs, staged, root, StagingFor(target), includeLogs);
      TargetStays(fs, staged, target);
      forall s | Pruned(staged, s, target) ensures SameBackups(fs, s, dir) {
        SparedKeeps(fs, staged, s, dir, target);
      }
    }
  }

  lemma TargetStays(fs: Fs, staged: Fs, target: Path)
    requires target != [] && SameButRoom(fs, staged, StagingFor(target))
    ensures Lookup(staged, target) == Lookup(fs, target)
  {
    SiblingsApart(target);
    assert Lookup(staged, target) == Lookup(fs, target);
  }

  /** What a finished `create` did outside the target: staging is gone, and missing parents of the target
      have become directories. */
  ghost predicate Published(fs: Fs, fs': Fs, target: Path)
    requires target != []
  {
    && Lookup(fs', target) == Some(Dir)
    && (forall p :: StagingFor(target) <= p ==> p !in fs')
    && forall p :: !(target <= p) && !(StagingFor(target) <= p) ==>
         Lookup(fs', p) == Lookup(fs, p) || (p !in fs && p <= target && Lookup(fs', p) == Some(Dir))
  }

  lemma RenamePublishes(fs: Fs, staged: Fs, fs': Fs, target: Path)
    requires target != [] && SameButRoom(fs, staged, StagingFor(target)) && Lookup(staged, StagingFor(target)) == Some(Dir)
    requires forall p :: target <= p ==> Lookup(fs', p) == Lookup(staged, Rebase(target, StagingFor(target), p))
    requires forall p :: !(target <= p) ==> Lookup(fs', p) == if StagingFor(target) <= p then None else Lookup(staged, p)
    ensures Published(fs, fs', target)
  {
    var staging := StagingFor(target);
    assert Rebase(target, staging, target) == staging;
    forall p | staging <= p ensures p !in fs' {
      PrefixesApart(target, staging, p);
      assert Lookup(fs', p) == None;
    }
    forall p | !(target <= p) && !(staging <= p)
      ensures Lookup(fs', p) == Lookup(fs, p) || (p !in fs && p <= target && Lookup(fs', p) == Some(Dir))
    {
      AncestorsShared(target, p);
      assert Lookup(fs', p) == Lookup(staged, p);
    }
  }

  /** A listing with the new backup, if its name is one. */
  ghost function WithPublished(listed: set<Path>, dir: Path, target: Path): set<Path> {
    listed + if Listable(dir, target) then {target} else {}
  }

  /** The rename adds the new backup to the listing and changes nothing else in it. */
  lemma PublishedIsListed(fs: Fs, fs': Fs, dir: Path, target: Path)
    requires target != [] && Undisturbed(fs, dir, target) && Published(fs, fs', target)
    ensures Listed(fs', dir) == WithPublished(Listed(fs, dir), dir, target)
  {
    forall p ensures p in Listed(fs', dir) <==> p in WithPublished(Listed(fs, dir), dir, target) {
      if Listable(dir, p) {
        EntersAtStaging(StagingFor(target), dir, p);
        EntersAtStaging(target, dir, p);
        StagingIsNoListing(dir, target);
        assert p != target ==> Lookup(fs', p) == Lookup(fs, p);
      }
    }
  }

  lemma PublishedAddsItself(fs: Fs, fs': Fs, dir: Path, target: Path)
    requires target != [] && Published(fs, fs', target)
    ensures Undisturbed(fs, dir, target) ==> Listed(fs', dir) == WithPublished(Listed(fs, dir), dir, target)
  {
    if Undisturbed(fs, dir, target) { PublishedIsListed(fs, fs', dir, target); }
  }

  lemma StagingIsNoListing(dir: Path, target: Path)
    requires target != []
    ensures !Listable(dir, StagingFor(target))
  {
  }

  /** An old backup that neither holds the target nor is at or in it, nor in staging, is intact. */
  lemma OldBackupsStay(fs: Fs, fs': Fs, target: Path, p: Path)
    requires target != [] && Published(fs, fs', target)
    requires !(p <= target) && !(target <= p) && !(StagingFor(target) <= p)
    ensures SameTree(fs, fs', p)
  {
    var staging := StagingFor(target);
    forall q | p <= q ensures Lookup(fs', q) == Lookup(fs, q) {
      assert !(target <= q) by { if target <= q { Comparable(p, target, q); } }
      assert !(staging <= q) by {
        if staging <= q { Comparable(p, staging, q); AncestorsShared(target, p); }
      }
      assert !(q <= target);
    }
  }

  /** Exactly when a complete backup at a fresh target adds itself to the listing of `dir` and nothing
      else: no missing parent looks like a backup, a listed staging directory was empty, and a `dir`
      inside the target receives no backup name from the source. */
  lemma PublishedListingIff(fs: Fs, fs': Fs, base: Fs, root: Path, names: set<string>, dir: Path, target: Path)
    requires WellFormed(fs) && WellFormed(fs') && target != [] && target !in fs && Published(fs, fs', target)
    requires Complete(fs', target, base, root, StagingFor(target), names)
    ensures Listed(fs', dir) == WithPublished(Listed(fs, dir), dir, target)
            <==> && NoListedRoom(fs, dir, target)
                 && (StagingFor(target) <= dir ==> Listed(fs, dir) == {})
                 && (target <= dir ==> !SourceLists(base, root, StagingFor(target), names, dir[|target|..]))
  {
    var staging := StagingFor(target);
    SiblingsApart(target);
    if staging <= dir {
      DeepNamesNotAbove(staging, dir, target);
      assert !(target <= dir) by { PrefixesApart(target, staging, dir); }
      assert Listed(fs', dir) == {};
    } else if target <= dir {
      DeepNamesNotAbove(target, dir, target);
      AbsentMeansEmpty(fs, target);
      assert Listed(fs, dir) == {};
      ListedInTarget(fs', base, root, names, dir, target);
    } else if q :| q <= target && q != target && q !in fs && Listable(dir, q) {
      assert target[..|q|] == q;
      AncestorsAreDirs(fs', target, |q|);
      assert q in Listed(fs', dir) && q !in WithPublished(Listed(fs, dir), dir, target);
    } else {
      PublishedIsListed(fs, fs', dir, target);
    }
  }

  /** Inside a directory as deep as the target there is no parent of the target to list. */
  lemma DeepNamesNotAbove(root: Path, dir: Path, target: Path)
    requires |root| == |target| && root <= dir
    ensures forall q :: Listable(dir, q) ==> |q| > |target|
  {
  }

  lemma NameInTarget(fs: Fs, base: Fs, root: Path, names: set<string>, dir: Path, target: Path, n: string)
    requires target != [] && target <= dir && Complete(fs, target, base, root, StagingFor(target), names)
    ensures var r := dir[|target|..] + [n];
            dir + [n] in Listed(fs, dir)
            <==> BackupTime(n).Some? && Included(base, root, StagingFor(target), names, r) && base[root + r].Dir?
  {
    var p := dir + [n];
    assert p[|target|..] == dir[|target|..] + [n] && target <= p && p[|dir|] == n;
    assert Lookup(fs, p) == if Included(base, root, StagingFor(target), names, p[|target|..])
                            then Some(base[root + p[|target|..]]) else None;
  }

  lemma ListedByName(fs: Fs, dir: Path)
    ensures Listed(fs, dir) != {} <==> exists n :: dir + [n] in Listed(fs, dir)
  {
    if Listed(fs, dir) != {} {
      NonEmpty(Listed(fs, dir));
      var p :| p in Listed(fs, dir);
      assert p == dir + [p[|dir|]];
    }
  }

  lemma ListedInTarget(fs: Fs, base: Fs, root: Path, names: set<string>, dir: Path, target: Path)
    requires target != [] && target <= dir && Complete(fs, target, base, root, StagingFor(target), names)
    ensures Listed(fs, dir) != {} <==> SourceLists(base, root, StagingFor(target), names, dir[|target|..])
  {
    var r := dir[|target|..];
    forall n ensures dir + [n] in Listed(fs, dir)
                     <==> BackupTime(n).Some? && Included(base, root, StagingFor(target), names, r + [n]) && base[root + (r + [n])].Dir?
    {
      NameInTarget(fs, base, root, names, dir, target, n);
    }
    ListedByName(fs, dir);
  }

  // ---- list and restore ----

  /** What a complete backup holds on top: the root's own entries of these names, symlinks and the
      staging directory aside. So no backup holds `.env`, and the logs are there if and only if they were
      asked for. */
  lemma BackupHolds(fs: Fs, target: Path, base: Fs, root: Path, staging: Path, includeLogs: bool, n: string)
    requires Complete(fs, target, base, root, staging, Kept(base, root, ExcludedTopLevel(includeLogs), true))
    requires !(staging <= root)
    ensures target + [n] in fs
            <==> && root + [n] in base && !base[root + [n]].Link? && root + [n] != staging
                 && n != ".env" && n != "cache" && n != "backups" && (n == "logs" ==> includeLogs)
                 && n != "engine.lock" && n != "engine.endpoint" && n != "work.lock" && !("engine.endpoint." <= n)
  {
    var p := target + [n];
    assert p[|target|..] == [n];
    assert Lookup(fs, p) == if Included(base, root, staging, Kept(base, root, ExcludedTopLevel(includeLogs), true), [n])
                            then Some(base[root + [n]]) else None;
    KeptIs(base, root, includeLogs, n);
    FenceAtStaging(root, staging, [n]);
  }

  predicate NewerFirst(a: BackupRef, b: BackupRef) { a.created >= b.created }

  /** `ref` describes a listed backup. */
  ghost predicate IsRefOf(fs: Fs, dir: Path, ref: BackupRef) {
    IsListing(fs, dir, ref.path) && ref.id == ref.path[|dir|] && Some(ref.created) == BackupTime(ref.id)
  }

  ghost predicate ListsOnce(refs: seq<BackupRef>, fs: Fs, dir: Path, left: set<string>) {
    forall ref :: multiset(refs)[ref] == if IsRefOf(fs, dir, ref) && ref.id !in left then 1 else 0
  }

  /** Lines 189-212: each listed backup once, most recent first; None for an unreadable directory. */
  method List(fs: Fs, dir: Path) returns (refs: Option<seq<BackupRef>>)
    requires WellFormed(fs)
    ensures refs.None? <==> dir in fs && !fs[dir].Dir?
    ensures refs.Some? ==> ListsOnce(refs.value, fs, dir, {})
    ensures refs.Some? ==> forall i, j :: 0 <= i < j < |refs.value| ==> refs.value[i].created >= refs.value[j].created
  {
    if dir !in fs {
      AbsentMeansEmpty(fs, dir);
      return Some([]);
    }
    if !fs[dir].Dir? {
      return None;
    }
    var found := FindBackups(fs, dir);
    found := Sort(found, NewerFirst);
    assert forall i, j :: 0 <= i < j < |found| ==> NewerFirst(found[i], found[j]);
    return Some(found);
  }

  method FindBackups(fs: Fs, dir: Path) returns (found: seq<BackupRef>)
    ensures ListsOnce(found, fs, dir, {})
  {
    found := [];
    var names := Children(fs, dir);
    NoneFoundYet(fs, dir);
    while names != {}
      invariant names <= Children(fs, dir) && ListsOnce(found, fs, dir, names)
    {
      var n := AnyOf(names);
      ChildrenAre(fs, dir, n);
      OneMoreName(found, fs, dir, names, n);
      if fs[dir + [n]].Dir? && BackupTime(n).Some? {
        found := found + [BackupRef(n, dir + [n], BackupTime(n).value)];
      }
      names := names - {n};
    }
  }

  lemma NoneFoundYet(fs: Fs, dir: Path)
    ensures ListsOnce([], fs, dir, Children(fs, dir))
  {
    forall ref | IsRefOf(fs, dir, ref) ensures ref.id in Children(fs, dir) {
      assert ref.path == dir + [ref.id];
      ChildrenAre(fs, dir, ref.id);
    }
  }

  lemma RefCalled(fs: Fs, dir: Path, n: string, ref: BackupRef)
    requires dir + [n] in fs && ref.id == n
    ensures IsRefOf(fs, dir, ref) <==> fs[dir + [n]].Dir? && Some(ref.created) == BackupTime(n) && ref.path == dir + [n]
  {
    if IsRefOf(fs, dir, ref) { assert ref.path == dir + [n]; }
  }

  lemma OneMoreName(found: seq<BackupRef>, fs: Fs, dir: Path, names: set<string>, n: string)
    requires ListsOnce(found, fs, dir, names) && n in names && dir + [n] in fs
    ensures ListsOnce(if fs[dir + [n]].Dir? && BackupTime(n).Some? then found + [BackupRef(n, dir + [n], BackupTime(n).value)] else found,
                      fs, dir, names - {n})
  {
    var time := BackupTime(n);
    var listed := fs[dir + [n]].Dir? && time.Some?;
    var found' := if listed then found + [BackupRef(n, dir + [n], time.value)] else found;
    forall ref ensures multiset(found')[ref] == if IsRefOf(fs, dir, ref) && ref.id !in names - {n} then 1 else 0 {
      if ref.id == n { RefCalled(fs, dir, n, ref); }
      assert multiset(found)[ref] == if IsRefOf(fs, dir, ref) && ref.id !in names then 1 else 0;
    }
  }

  /** What restoring `backup` into `dest` leaves: the backup laid over the directory, minus runtime
      artifacts on top. */
  ghost predicate Restored(fs: Fs, fs': Fs, backup: Path, dest: Path) {
    var base := WithDirs(fs, dest);
    && WellFormed(base) && Lookup(base, backup) == Some(Dir)
    && Copied(base, fs', backup, dest, dest, Kept(base, backup, [], true))
  }

  /** The destination may be apart from the backup, inside it, or hold it, as long as nothing in the
      backup would land on the backup. */
  ghost predicate SafeDestination(fs: Fs, backup: Path, dest: Path) {
    && dest != backup
    && (dest <= backup ==> !Included(fs, backup, dest, Kept(fs, backup, [], true), backup[|dest|..]))
  }

  lemma RoomKeepsSafe(fs: Fs, backup: Path, dest: Path)
    requires WellFormed(fs) && SafeDestination(fs, backup, dest) && WellFormed(WithDirs(fs, dest))
    ensures SafeDestination(WithDirs(fs, dest), backup, dest)
    ensures Apart(WithDirs(fs, dest), backup, dest, dest, Kept(WithDirs(fs, dest), backup, [], true))
  {
    var base := WithDirs(fs, dest);
    if dest <= backup {
      RoomKeepsNames(fs, backup, dest);
      WithDirsLookup(fs, dest, backup + backup[|dest|..]);
    }
    ApartIff(base, backup, dest, Kept(base, backup, [], true));
  }

  lemma RoomKeepsNames(fs: Fs, backup: Path, dest: Path)
    requires WellFormed(fs) && dest <= backup
    ensures Kept(WithDirs(fs, dest), backup, [], true) == Kept(fs, backup, [], true)
  {
    forall n ensures n in Children(WithDirs(fs, dest), backup) <==> n in Children(fs, backup) {
      ChildrenAre(fs, backup, n);
      ChildrenAre(WithDirs(fs, dest), backup, n);
      WithDirsLookup(fs, dest, backup + [n]);
    }
  }

  /** Lines 217-221. */
  method Restore(disk: Disk, backup: Path, dest: Path) returns (ok: bool)
    requires disk.Valid() && dest != [] && SafeDestination(disk.fs, backup, dest)
    modifies disk
    ensures disk.Valid() && old(disk.trail) <= disk.trail
    ensures SameButRoom(old(disk.fs), disk.fs, dest)
    ensures ok ==> Restored(old(disk.fs), disk.fs, backup, dest)
  {
    ghost var fs0 := disk.fs;
    ok := disk.CreateDirAll(dest);
    RoomTrans(fs0, fs0, dest);
    if ok {
      assert Placed(disk.fs, dest);
      RoomKeepsSafe(fs0, backup, dest);
      OutsideThenRoom(fs0, disk.fs, dest);
      ghost var base := disk.fs;
      ok := CopyTree(disk, backup, dest, [], dest, true);
      PartwayIsInside(base, disk.fs, backup, dest, dest, Kept(base, backup, [], true));
    }
  }

  /** A tree `create` can have published: no symlinks, no runtime artifacts on top. */
  ghost predicate IsClean(fs: Fs, backup: Path) {
    forall p :: backup <= p && p in fs ==>
      !fs[p].Link? && (p != backup ==> !IsRuntimeArtifact(p[|backup|]))
  }

  lemma CompleteIsClean(fs: Fs, target: Path, base: Fs, root: Path, guard: Path, includeLogs: bool)
    requires Complete(fs, target, base, root, guard, Kept(base, root, ExcludedTopLevel(includeLogs), true))
    ensures IsClean(fs, target)
  {
    forall p | target <= p && p in fs ensures !fs[p].Link? && (p != target ==> !IsRuntimeArtifact(p[|target|])) {
      var r := p[|target|..];
      assert Lookup(fs, p) != None;
      if p != target { assert r != [] && r[0] == p[|target|]; }
    }
  }

  /** A backup made at a fresh target can be restored over its own root, wherever in it the target lies. */
  lemma OwnRootIsSafe(fs: Fs, base: Fs, root: Path, target: Path, guard: Path, names: set<string>)
    requires Complete(fs, target, base, root, guard, names) && target !in base && target != root
    ensures SafeDestination(fs, target, root)
  {
    if root <= target {
      var rel := target[|root|..];
      assert root + rel == target;
      assert (target + rel)[|target|..] == rel;
      assert Lookup(fs, target + rel) == None;
    }
  }

  /** A target that was fresh when `create` began is not in what it copied. */
  lemma FreshNotInBase(fs: Fs, left: Fs, base: Fs, target: Path)
    requires target != [] && target !in fs && SameOutside(fs, left, StagingFor(target)) && WellFormed(left)
    requires base == WithDirs(left, StagingFor(target))
    ensures target !in base
  {
    SiblingsApart(target);
    assert Lookup(left, target) == Lookup(fs, target);
    WithDirsLookup(left, StagingFor(target), target);
  }

  /** What is in the backup is in `dest` afterwards, what is not keeps its place there, and the
      backup is left as it was. */
  lemma RestoreOverlays(fs: Fs, fs': Fs, backup: Path, dest: Path, r: Path)
    requires WellFormed(fs) && IsClean(fs, backup)
    requires SafeDestination(fs, backup, dest) && !(backup <= dest) && Restored(fs, fs', backup, dest)
    ensures Lookup(fs', dest + r) == if backup + r in fs then Some(fs[backup + r]) else Lookup(WithDirs(fs, dest), dest + r)
    ensures Lookup(fs', backup + r) == Lookup(fs, backup + r)
  {
    var base := WithDirs(fs, dest);
    var names := Kept(base, backup, [], true);
    var p, q := dest + r, backup + r;
    assert p[|dest|..] == r;
    RoomIsElsewhere(fs, backup, dest, r);
    RoomKeepsSafe(fs, backup, dest);
    assert Lookup(fs', p) == Overlaid(base, backup, dest, dest, names, p);
    assert Lookup(fs', q) == Overlaid(base, backup, dest, dest, names, q);
    NotWritten(base, backup, dest, names, r);
    forall r' ensures Lookup(base, backup + r') == Lookup(fs, backup + r') { RoomIsElsewhere(fs, backup, dest, r'); }
    KeptBelow(fs, base, backup, r);
  }

  /** Making room for `dest` neither fences off nor changes anything in the backup. */
  lemma RoomIsElsewhere(fs: Fs, backup: Path, dest: Path, r: Path)
    requires WellFormed(fs) && !(backup <= dest)
    ensures Lookup(WithDirs(fs, dest), backup + r) == Lookup(fs, backup + r)
    ensures !Fenced(backup, dest, backup + r)
  {
    WithDirsLookup(fs, dest, backup + r);
    assert backup <= backup + r;
    if |backup| < |dest| <= |backup + r| { assert (backup + r)[..|dest|][..|backup|] == backup; }
  }

  lemma NotWritten(base: Fs, backup: Path, dest: Path, names: set<string>, r: Path)
    requires WellFormed(base) && Apart(base, backup, dest, dest, names) && !(backup <= dest)
    ensures dest <= backup + r ==> !Included(base, backup, dest, names, (backup + r)[|dest|..])
  {
    var q := backup + r;
    if |dest| < |backup| {
      var s, k := q[|dest|..], |backup| - |dest|;
      assert q[..|dest|] == backup[..|dest|] && s[..k] == backup[|dest|..];
      ApartIff(base, backup, dest, names);
      IncludedAbove(base, backup, dest, names, s, k);
    } else if |dest| <= |q| {
      assert q[..|dest|][..|backup|] == backup;
    }
  }

  lemma KeptBelow(fs: Fs, base: Fs, backup: Path, r: Path)
    requires WellFormed(fs) && IsClean(fs, backup)
    requires forall r' :: Lookup(base, backup + r') == Lookup(fs, backup + r')
    ensures backup + r in fs && r != [] ==> r[0] in Kept(base, backup, [], true)
  {
    var q := backup + r;
    if q in fs && r != [] {
      assert q[|backup|] == r[0];
      assert q[..|backup| + 1] == backup + [r[0]];
      if |r| > 1 { AncestorsAreDirs(fs, q, |backup| + 1); } else { assert q == backup + [r[0]]; }
      assert Lookup(base, backup + [r[0]]) == Lookup(fs, backup + [r[0]]);
      ChildrenAre(base, backup, r[0]);
    }
  }

  /** Restored into an empty place apart from it, a backup is reproduced exactly. */
  lemma RestoreReproduces(fs: Fs, fs': Fs, backup: Path, dest: Path, r: Path)
    requires WellFormed(fs) && IsClean(fs, backup)
    requires !(dest <= backup) && !(backup <= dest)
    requires forall q :: dest <= q && q != dest ==> q !in fs
    requires Restored(fs, fs', backup, dest)
    ensures Lookup(fs', dest + r) == Lookup(fs, backup + r) && Lookup(fs', backup + r) == Lookup(fs, backup + r)
  {
    RestoreOverlays(fs, fs', backup, dest, r);
    WithDirsLookup(fs, dest, dest + r);
    WithDirsLookup(fs, dest, backup);
    if r == [] { assert backup + r == backup; }
  }

  /** The round trip: whatever `root` has become since, restoring a complete backup over it brings
      back every path the backup was made of, and changes no other. */
  lemma RestoreResumes(base: Fs, fs: Fs, fs': Fs, root: Path, target: Path, guard: Path, includeLogs: bool, r: Path)
    requires WellFormed(fs) && root in fs && !(target <= root) && SafeDestination(fs, target, root)
    requires Complete(fs, target, base, root, guard, Kept(base, root, ExcludedTopLevel(includeLogs), true))
    requires Restored(fs, fs', target, root)
    ensures Lookup(fs', root + r)
            == if Included(base, root, guard, Kept(base, root, ExcludedTopLevel(includeLogs), true), r)
               then Lookup(base, root + r) else Lookup(fs, root + r)
  {
    CompleteIsClean(fs, target, base, root, guard, includeLogs);
    RestoreOverlays(fs, fs', target, root, r);
    assert (target + r)[|target|..] == r;
    assert Lookup(fs, target + r) == if target + r in fs then Some(fs[target + r]) else None;
  }
}
