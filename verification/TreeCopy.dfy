/** The recursive copy of crates/domain/src/backup.rs: its destination may lie inside its source, and a
    crash may come between any two steps. */
module TreeCopy {
  import opened FileTree
  import opened Options
  import opened Sorting

  // ---- What is left out ----

  const ALWAYS_EXCLUDED := [".env", "cache", "backups"]
  const LOGS_ENTRY := "logs"

  predicate IsRuntimeArtifact(name: string) {
    name == "engine.lock" || name == "engine.endpoint" || name == "work.lock" || "engine.endpoint." <= name
  }

  function ExcludedTopLevel(includeLogs: bool): seq<string> {
    if includeLogs then ALWAYS_EXCLUDED else ALWAYS_EXCLUDED + [LOGS_ENTRY]
  }

  function Children(fs: Fs, dir: Path): set<string> {
    set q | q in fs && |q| == |dir| + 1 && dir <= q :: q[|dir|]
  }

  lemma ChildrenAre(fs: Fs, dir: Path, n: string)
    ensures n in Children(fs, dir) <==> dir + [n] in fs
  {
    if n in Children(fs, dir) {
      var q :| q in fs && |q| == |dir| + 1 && dir <= q && q[|dir|] == n;
      assert q == dir + [n];
    }
  }

  predicate Skips(excluded: seq<string>, top: bool, name: string) {
    top && (name in excluded || IsRuntimeArtifact(name))
  }

  ghost function Kept(fs: Fs, from: Path, excluded: seq<string>, top: bool): set<string> {
    set n | n in Children(fs, from) && !Skips(excluded, top, n)
  }

  /** The top-level names that go into a backup, spelled out. */
  lemma KeptIs(fs: Fs, root: Path, includeLogs: bool, n: string)
    ensures n in Kept(fs, root, ExcludedTopLevel(includeLogs), true)
            <==> && root + [n] in fs
                 && n != ".env" && n != "cache" && n != "backups" && (n == "logs" ==> includeLogs)
                 && n != "engine.lock" && n != "engine.endpoint" && n != "work.lock" && !("engine.endpoint." <= n)
  {
    ChildrenAre(fs, root, n);
  }

  /** The top-level names a restore takes, spelled out; below the top nothing is left out by name. */
  lemma RestoredNamesAre(fs: Fs, dir: Path, excluded: seq<string>, n: string)
    ensures n in Kept(fs, dir, [], true)
            <==> && dir + [n] in fs
                 && n != "engine.lock" && n != "engine.endpoint" && n != "work.lock" && !("engine.endpoint." <= n)
    ensures n in Kept(fs, dir, excluded, false) <==> dir + [n] in fs
  {
    ChildrenAre(fs, dir, n);
  }

  // ---- What a copy is ----

  /** `q`, seen from `from`, lies at or below the directory the copy refuses to enter. */
  predicate Fenced(from: Path, guard: Path, q: Path) {
    |from| < |guard| && guard <= q
  }

  predicate BelowNames(root: Path, names: set<string>, q: Path) {
    root <= q && (q != root ==> q[|root|] in names)
  }

  /** Relative path `r` belongs to the copy of `from`: present, not a symlink, not fenced off, and
      below a kept name. */
  ghost predicate Included(fs: Fs, from: Path, guard: Path, names: set<string>, r: Path) {
    && from + r in fs && !fs[from + r].Link? && !Fenced(from, guard, from + r)
    && (r != [] ==> r[0] in names)
  }

  /** What `p` holds once the included part of `from` has been laid over `to`. */
  ghost function Overlaid(fs: Fs, from: Path, to: Path, guard: Path, names: set<string>, p: Path): Option<Node> {
    if to <= p && Included(fs, from, guard, names, p[|to|..]) then Some(fs[from + p[|to|..]]) else Lookup(fs, p)
  }

  ghost predicate Copied(fs: Fs, fs': Fs, from: Path, to: Path, guard: Path, names: set<string>) {
    forall p :: Lookup(fs', p) == Overlaid(fs, from, to, guard, names, p)
  }

  /** No path the copy may read is one it writes. */
  ghost predicate Apart(fs: Fs, from: Path, to: Path, guard: Path, names: set<string>) {
    forall p :: BelowNames(from, names, p) && !Fenced(from, guard, p) && to <= p ==>
      !Included(fs, from, guard, names, p[|to|..])
  }

  /** With the guard at the destination, reads and writes are apart exactly when the destination does
      not hold the source, or the source has nothing to copy to the place where it lies itself. */
  lemma ApartIff(fs: Fs, from: Path, to: Path, names: set<string>)
    requires WellFormed(fs)
    ensures Apart(fs, from, to, to, names) <==> (to <= from ==> !Included(fs, from, to, names, from[|to|..]))
  {
    assert BelowNames(from, names, from) && (to <= from ==> !Fenced(from, to, from));
    forall p | BelowNames(from, names, p) && !Fenced(from, to, p) && to <= p
      ensures to <= from && (Included(fs, from, to, names, p[|to|..]) ==> Included(fs, from, to, names, from[|to|..]))
    {
      assert from == p[..|from|] && to == p[..|to|];
      assert to == from[..|to|];
      IncludedAbove(fs, from, to, names, p[|to|..], |from| - |to|);
      assert p[|to|..][..|from| - |to|] == from[|to|..];
    }
  }

  /** What is above something included is included. */
  lemma IncludedAbove(fs: Fs, from: Path, guard: Path, names: set<string>, r: Path, k: nat)
    requires WellFormed(fs) && k <= |r|
    ensures Included(fs, from, guard, names, r) ==> Included(fs, from, guard, names, r[..k])
  {
    if k < |r| && from + r in fs {
      AncestorsAreDirs(fs, from + r, |from| + k);
      assert (from + r)[..|from| + k] == from + r[..k];
      assert from + r[..k] <= from + r;
    }
    assert k == |r| ==> r[..k] == r;
  }

  /** What a copy needs of its paths: a guard that is a directory around the destination, and reads
      apart from writes. */
  ghost predicate CopySafe(fs: Fs, from: Path, to: Path, guard: Path, names: set<string>) {
    && WellFormed(fs) && Lookup(fs, guard) == Some(Dir) && guard <= to
    && to != [] && Placed(fs, to) && (Parent(to) == from ==> to in fs)
    && to != from && Apart(fs, from, to, guard, names)
  }

  /** One step down, the fence is the same unless the step enters it. */
  lemma FencedStep(from: Path, guard: Path, n: string, q: Path)
    requires from + [n] <= q
    ensures Fenced(from, guard, q) ==> guard == from + [n] || Fenced(from + [n], guard, q)
  {
    assert q[..|from| + 1] == from + [n];
  }

  /** Apart above means apart one level down, whatever is there. */
  lemma ApartBelow(fs: Fs, fs1: Fs, from: Path, to: Path, guard: Path, names: set<string>, n: string, names': set<string>)
    requires Apart(fs, from, to, guard, names) && n in names && from + [n] != guard
    requires SourceKept(fs, fs1, from, guard, n)
    ensures Apart(fs1, from + [n], to + [n], guard, names')
  {
    var src, dst := from + [n], to + [n];
    forall p | BelowNames(src, names', p) && !Fenced(src, guard, p) && dst <= p
      ensures !Included(fs1, src, guard, names', p[|dst|..])
    {
      var r := p[|dst|..];
      assert p[|from|] == src[|from|];
      FencedStep(from, guard, n, p);
      assert BelowNames(from, names, p) && to <= p;
      assert p[|to|..] == [n] + r && from + ([n] + r) == src + r;
      FencedStep(from, guard, n, src + r);
    }
  }

  lemma EntryIsNotTo(fs: Fs, from: Path, to: Path, guard: Path, names: set<string>, n: string)
    requires Apart(fs, from, to, guard, names) && n in names && from + [n] != guard && Lookup(fs, from) == Some(Dir)
    ensures from + [n] != to
  {
    var src := from + [n];
    assert src[|from|] == n;
    assert Fenced(from, guard, src) ==> guard == src;
    assert from + [] == from && to[|to|..] == [];
    assert BelowNames(from, names, src) && Included(fs, from, guard, names, []);
  }

  lemma CopyStarts(fs: Fs, fs': Fs, from: Path, to: Path, guard: Path, names: set<string>)
    requires CopySafe(fs, from, to, guard, names) && Lookup(fs, from) == Some(Dir)
    requires fs' == if to in fs then fs else fs[to := Dir]
    requires Lookup(fs', to) == Some(Dir)
    ensures Copied(fs, fs', from, to, guard, {})
  {
    assert from + [] == from;
    forall p ensures Lookup(fs', p) == Overlaid(fs, from, to, guard, {}, p) {
      if to <= p && p[|to|..] == [] { assert p == to; }
    }
  }

  /** A symlink, or the guard itself, contributes nothing. */
  lemma SkippedEntry(fs: Fs, fs': Fs, from: Path, to: Path, guard: Path, names: set<string>, n: string)
    requires WellFormed(fs) && Copied(fs, fs', from, to, guard, names)
    requires from + [n] in fs && (from + [n] == guard || fs[from + [n]].Link?)
    ensures Copied(fs, fs', from, to, guard, names + {n})
  {
    forall r | r != [] && r[0] == n ensures !Included(fs, from, guard, names + {n}, r) {
      var q := from + r;
      assert from + [n] <= q;
      if q in fs && q != from + [n] {
        AncestorsAreDirs(fs, q, |from| + 1);
        assert q[..|from| + 1] == from + [n];
      }
    }
    forall p ensures Lookup(fs', p) == Overlaid(fs, from, to, guard, names + {n}, p) {
      assert Lookup(fs', p) == Overlaid(fs, from, to, guard, names, p);
    }
  }

  lemma FileEntry(fs: Fs, fs1: Fs, from: Path, to: Path, guard: Path, names: set<string>, n: string)
    requires WellFormed(fs) && Copied(fs, fs1, from, to, guard, names)
    requires from + [n] in fs && fs[from + [n]].File? && from + [n] != guard && n !in names
    ensures Copied(fs, fs1[to + [n] := fs[from + [n]]], from, to, guard, names + {n})
  {
    var src, dst := from + [n], to + [n];
    assert Fenced(from, guard, src) ==> guard == src;
    forall r | r != [] && r[0] == n ensures Included(fs, from, guard, names + {n}, r) <==> r == [n] {
      var q := from + r;
      if r != [n] && q in fs {
        assert q[..|from| + 1] == src;
        AncestorsAreDirs(fs, q, |from| + 1);
      }
    }
    forall p ensures Lookup(fs1[dst := fs[src]], p) == Overlaid(fs, from, to, guard, names + {n}, p) {
      assert Lookup(fs1, p) == Overlaid(fs, from, to, guard, names, p);
      if to <= p && p[|to|..] == [n] { assert p == dst; }
    }
  }

  /** A subdirectory copied by the recursive call extends the copy by one name. */
  lemma DirEntry(fs: Fs, fs1: Fs, fs2: Fs, from: Path, to: Path, guard: Path, names: set<string>, n: string, excluded: seq<string>)
    requires Copied(fs, fs1, from, to, guard, names) && SourceKept(fs, fs1, from, guard, n)
    requires from + [n] in fs && fs[from + [n]].Dir? && from + [n] != guard && n !in names
    requires WellFormed(fs1) && Copied(fs1, fs2, from + [n], to + [n], guard, Kept(fs1, from + [n], excluded, false))
    ensures Copied(fs, fs2, from, to, guard, names + {n})
  {
    var src, dst := from + [n], to + [n];
    forall p ensures Lookup(fs2, p) == Overlaid(fs, from, to, guard, names + {n}, p) {
      assert Lookup(fs1, p) == Overlaid(fs, from, to, guard, names, p);
      assert Lookup(fs2, p) == Overlaid(fs1, src, dst, guard, Kept(fs1, src, excluded, false), p);
      if dst <= p {
        var r := p[|dst|..];
        assert p[|to|..] == [n] + r;
        assert from + ([n] + r) == src + r;
        SubtreeIncluded(fs, fs1, from, guard, names, n, excluded, r);
      }
    }
  }

  /** The subtree at entry `n` is still what it was. */
  ghost predicate SourceKept(fs: Fs, fs': Fs, from: Path, guard: Path, n: string) {
    forall q :: from + [n] <= q && !Fenced(from, guard, q) ==> Lookup(fs', q) == Lookup(fs, q)
  }

  lemma SubtreeIncluded(fs: Fs, fs1: Fs, from: Path, guard: Path, names: set<string>, n: string, excluded: seq<string>, r: Path)
    requires WellFormed(fs1) && SourceKept(fs, fs1, from, guard, n) && from + [n] != guard
    ensures Included(fs1, from + [n], guard, Kept(fs1, from + [n], excluded, false), r)
            <==> Included(fs, from, guard, names + {n}, [n] + r)
    ensures !Fenced(from, guard, from + [n] + r) ==> Lookup(fs1, from + [n] + r) == Lookup(fs, from + [n] + r)
  {
    var q := from + [n] + r;
    assert from + ([n] + r) == q;
    assert from + [n] == q[..|from| + 1];
    assert Fenced(from, guard, q) ==> Fenced(from + [n], guard, q);
    if r != [] && q in fs1 {
      assert q[..|from| + 2] == from + [n] + [r[0]];
      if |r| > 1 { AncestorsAreDirs(fs1, q, |from| + 2); }
      ChildrenAre(fs1, from + [n], r[0]);
    }
  }

  // ---- What a crash in the middle of a copy leaves ----

  /** At `p`: what was there, the destination itself, or a node of the kind the source has at the same
      place, with any content. */
  ghost predicate PartwayAt(fs: Fs, s: Fs, from: Path, to: Path, guard: Path, names: set<string>, p: Path) {
    || Lookup(s, p) == Lookup(fs, p)
    || (p == to && Lookup(s, p) == Some(Dir))
    || (to <= p && p in s && !s[p].Link? && Included(fs, from, guard, names, p[|to|..])
        && s[p].Dir? == fs[from + p[|to|..]].Dir?)
  }

  ghost predicate Partway(fs: Fs, s: Fs, from: Path, to: Path, guard: Path, names: set<string>) {
    forall p :: PartwayAt(fs, s, from, to, guard, names, p)
  }

  ghost predicate AllPartway(trail: seq<Fs>, lo: nat, fs: Fs, from: Path, to: Path, guard: Path, names: set<string>) {
    forall k :: lo <= k < |trail| ==> Partway(fs, trail[k], from, to, guard, names)
  }

  lemma PartwayIsInside(fs: Fs, s: Fs, from: Path, to: Path, guard: Path, names: set<string>)
    requires Partway(fs, s, from, to, guard, names)
    ensures SameOutside(fs, s, to)
  {
    forall q | !(to <= q) ensures Lookup(s, q) == Lookup(fs, q) {
      assert PartwayAt(fs, s, from, to, guard, names, q);
    }
  }

  lemma CopiedIsPartway(fs: Fs, fs': Fs, from: Path, to: Path, guard: Path, done: set<string>, names: set<string>)
    requires Copied(fs, fs', from, to, guard, done) && done <= names
    ensures Partway(fs, fs', from, to, guard, names)
  {
    forall p ensures PartwayAt(fs, fs', from, to, guard, names, p) {
      assert Lookup(fs', p) == Overlaid(fs, from, to, guard, done, p);
    }
  }

  /** What is partway through the copy of a subdirectory is partway through the whole copy. */
  lemma ChildPartway(fs: Fs, fs1: Fs, s: Fs, from: Path, to: Path, guard: Path, done: set<string>, names: set<string>, n: string, excluded: seq<string>)
    requires Copied(fs, fs1, from, to, guard, done) && done <= names && n in names && SourceKept(fs, fs1, from, guard, n)
    requires from + [n] in fs && fs[from + [n]].Dir? && from + [n] != guard && WellFormed(fs1)
    requires Partway(fs1, s, from + [n], to + [n], guard, Kept(fs1, from + [n], excluded, false))
    ensures Partway(fs, s, from, to, guard, names)
  {
    var src, dst := from + [n], to + [n];
    CopiedIsPartway(fs, fs1, from, to, guard, done, names);
    assert Fenced(from, guard, src) ==> guard == src;
    forall p ensures PartwayAt(fs, s, from, to, guard, names, p) {
      assert PartwayAt(fs1, s, src, dst, guard, Kept(fs1, src, excluded, false), p);
      assert PartwayAt(fs, fs1, from, to, guard, names, p);
      if dst <= p {
        var r := p[|dst|..];
        assert p[|to|..] == [n] + r && from + ([n] + r) == src + r;
        SubtreeIncluded(fs, fs1, from, guard, {}, n, excluded, r);
        if p == dst { assert [n] + r == [n]; }
      }
    }
  }

  lemma FilePartway(fs: Fs, fs1: Fs, s: Fs, from: Path, to: Path, guard: Path, done: set<string>, names: set<string>, n: string)
    requires Copied(fs, fs1, from, to, guard, done) && done <= names && n in names
    requires from + [n] in fs && fs[from + [n]].File? && from + [n] != guard && FileWritten(fs1, s, to + [n])
    ensures Partway(fs, s, from, to, guard, names)
  {
    var src, dst := from + [n], to + [n];
    CopiedIsPartway(fs, fs1, from, to, guard, done, names);
    assert Fenced(from, guard, src) ==> guard == src;
    forall p ensures PartwayAt(fs, s, from, to, guard, names, p) {
      assert PartwayAt(fs, fs1, from, to, guard, names, p);
      if p == dst { assert p[|to|..] == [n]; }
    }
  }

  // ---- copy_tree_excluding ----

  /** The part of the tree a copy walks; it never grows while the copy writes. */
  ghost function Walked(fs: Fs, from: Path, guard: Path): set<Path> {
    set q | q in fs && from <= q && !Fenced(from, guard, q)
  }

  /** Lines 72-106. With reads apart from writes the copy terminates and reads nothing it wrote: the
      result is given by the tree as it was at the call. */
  method CopyTree(disk: Disk, from: Path, to: Path, excluded: seq<string>, guard: Path, top: bool) returns (ok: bool)
    requires disk.Valid() && CopySafe(disk.fs, from, to, guard, Kept(disk.fs, from, excluded, top))
    modifies disk
    ensures disk.Valid() && old(disk.trail) <= disk.trail
    ensures Partway(old(disk.fs), disk.fs, from, to, guard, Kept(old(disk.fs), from, excluded, top))
    ensures AllPartway(disk.trail, |old(disk.trail)|, old(disk.fs), from, to, guard, Kept(old(disk.fs), from, excluded, top))
    ensures ok ==> Lookup(old(disk.fs), from) == Some(Dir)
    ensures ok ==> Copied(old(disk.fs), disk.fs, from, to, guard, Kept(old(disk.fs), from, excluded, top))
    decreases |Walked(disk.fs, from, guard)|, 1
  {
    ghost var fs0 := disk.fs;
    ok := disk.CreateDirAll(to);
    RoomIsPartway(fs0, from, to, guard, Kept(fs0, from, excluded, top));
    RoomIsInside(fs0, to);
    var fails := disk.Flaky();
    if !ok || fails || from !in disk.fs || !disk.fs[from].Dir? {
      return false;
    }
    CopyStarts(fs0, disk.fs, from, to, guard, Kept(fs0, from, excluded, top));
    SameChildren(fs0, disk.fs, from, to);
    ok := CopyEntries(disk, from, to, excluded, guard, top, Children(disk.fs, from), fs0);
    assert Kept(fs0, from, excluded, top) == set n | n in Children(fs0, from) && !Skips(excluded, top, n);
  }

  lemma RoomIsPartway(fs: Fs, from: Path, to: Path, guard: Path, names: set<string>)
    requires WellFormed(fs) && to != [] && Placed(fs, to)
    ensures forall s :: OnlyRoom(fs, s, to) ==> Partway(fs, s, from, to, guard, names)
  {
    RoomIsInside(fs, to);
    forall s | OnlyRoom(fs, s, to) ensures Partway(fs, s, from, to, guard, names) {
      forall p ensures PartwayAt(fs, s, from, to, guard, names, p) {
        assert p <= to && to <= p ==> p == to;
      }
    }
  }

  /** Lines 80-104: the entries, in whatever order the directory yields them. */
  method CopyEntries(disk: Disk, from: Path, to: Path, excluded: seq<string>, guard: Path, top: bool,
                     entries: set<string>, ghost fs0: Fs) returns (ok: bool)
    requires disk.Valid() && CopySafe(fs0, from, to, guard, Kept(fs0, from, excluded, top)) && Lookup(fs0, from) == Some(Dir)
    requires entries <= Children(fs0, from) && Copied(fs0, disk.fs, from, to, guard, {})
    modifies disk
    ensures disk.Valid() && old(disk.trail) <= disk.trail
    ensures Partway(fs0, disk.fs, from, to, guard, Kept(fs0, from, excluded, top))
    ensures AllPartway(disk.trail, |old(disk.trail)|, fs0, from, to, guard, Kept(fs0, from, excluded, top))
    ensures ok ==> Copied(fs0, disk.fs, from, to, guard, set n | n in entries && !Skips(excluded, top, n))
    decreases |Walked(fs0, from, guard)|, 0, 1
  {
    var names := entries;
    ghost var done := {};
    while names != {}
      invariant names <= entries && disk.Valid() && old(disk.trail) <= disk.trail
      invariant AllPartway(disk.trail, |old(disk.trail)|, fs0, from, to, guard, Kept(fs0, from, excluded, top))
      invariant done == set n | n in entries && n !in names && !Skips(excluded, top, n)
      invariant Copied(fs0, disk.fs, from, to, guard, done)
    {
      var n := AnyOf(names);
      names := names - {n};
      if !Skips(excluded, top, n) {
        ok := CopyEntry(disk, from, to, excluded, guard, n, fs0, done, Kept(fs0, from, excluded, top));
        if !ok {
          return false;
        }
        done := done + {n};
      }
    }
    assert done == set n | n in entries && !Skips(excluded, top, n);
    CopiedIsPartway(fs0, disk.fs, from, to, guard, done, Kept(fs0, from, excluded, top));
    return true;
  }

  /** The destination and the guard are still directories. */
  lemma RootsStay(fs: Fs, fs': Fs, from: Path, to: Path, guard: Path, names: set<string>)
    requires Lookup(fs, guard) == Some(Dir) && guard <= to
    requires Copied(fs, fs', from, to, guard, names) && Lookup(fs, from) == Some(Dir)
    ensures Lookup(fs', to) == Some(Dir) && Lookup(fs', guard) == Some(Dir)
  {
    assert from + [] == from && to[|to|..] == [];
    assert Lookup(fs', to) == Overlaid(fs, from, to, guard, names, to);
    assert Lookup(fs', guard) == Overlaid(fs, from, to, guard, names, guard);
    if guard != to { assert !(to <= guard); }
  }

  /** An entry about to be copied is what it was. */
  lemma EntryStays(fs: Fs, fs': Fs, from: Path, guard: Path, n: string)
    requires SourceKept(fs, fs', from, guard, n)
    requires Lookup(fs, guard) == Some(Dir) && Lookup(fs', guard) == Some(Dir)
    ensures Lookup(fs', from + [n]) == Lookup(fs, from + [n])
  {
    assert Fenced(from, guard, from + [n]) ==> guard == from + [n];
  }

  lemma RoomIsInside(fs: Fs, to: Path)
    requires WellFormed(fs) && to != [] && Placed(fs, to)
    ensures forall fs' :: OnlyRoom(fs, fs', to) ==> SameOutside(fs, fs', to)
    ensures WithDirs(fs, to) == if to in fs then fs else fs[to := Dir]
  {
    forall q | q <= to && q != to ensures q in fs {
      assert q == Parent(to)[..|q|];
      if q != Parent(to) { AncestorsAreDirs(fs, Parent(to), |q|); }
    }
  }

  /** What has been written so far is nothing that is still to be read. */
  lemma SourceUntouched(fs: Fs, fs': Fs, from: Path, to: Path, guard: Path, done: set<string>, names: set<string>, n: string)
    requires Apart(fs, from, to, guard, names) && Copied(fs, fs', from, to, guard, done) && done <= names && n in names
    ensures SourceKept(fs, fs', from, guard, n)
  {
    forall q | from + [n] <= q && !Fenced(from, guard, q) ensures Lookup(fs', q) == Lookup(fs, q) {
      assert q[|from|] == (from + [n])[|from|];
      assert BelowNames(from, names, q);
      assert Lookup(fs', q) == Overlaid(fs, from, to, guard, done, q);
    }
  }

  lemma SameChildren(fs: Fs, fs': Fs, from: Path, to: Path)
    requires to != [] && (Parent(to) == from ==> to in fs)
    requires fs' == if to in fs then fs else fs[to := Dir]
    ensures Children(fs', from) == Children(fs, from)
  {
    forall n ensures n in Children(fs', from) <==> n in Children(fs, from) {
      ChildrenAre(fs, from, n);
      ChildrenAre(fs', from, n);
      assert Parent(from + [n]) == from;
    }
  }

  lemma WalkShrinks(fs: Fs, fs': Fs, from: Path, guard: Path, n: string)
    requires from in fs && from + [n] != guard && SourceKept(fs, fs', from, guard, n)
    ensures |Walked(fs', from + [n], guard)| < |Walked(fs, from, guard)|
  {
    var src := from + [n];
    var a, b := Walked(fs', src, guard), Walked(fs, from, guard);
    forall q | q in a ensures q in b && q != from {
      assert src == q[..|src|] && from <= src;
      FencedStep(from, guard, n, q);
      assert Lookup(fs', q) == Lookup(fs, q);
    }
    assert from in b && a <= b - {from};
    CardinalityMonotone(a, b - {from});
  }

  lemma {:induction false} CardinalityMonotone(a: set<Path>, b: set<Path>)
    requires a <= b
    ensures |a| <= |b|
  {
    assert b == a + (b - a);
  }

  /** Lines 81-104: one directory entry. */
  method CopyEntry(disk: Disk, from: Path, to: Path, excluded: seq<string>, guard: Path, n: string,
                   ghost fs0: Fs, ghost done: set<string>, ghost names: set<string>) returns (ok: bool)
    requires disk.Valid() && CopySafe(fs0, from, to, guard, names) && Lookup(fs0, from) == Some(Dir)
    requires n in names && names <= Children(fs0, from)
    requires done <= names - {n} && Copied(fs0, disk.fs, from, to, guard, done)
    modifies disk
    ensures disk.Valid() && old(disk.trail) <= disk.trail
    ensures Partway(fs0, disk.fs, from, to, guard, names)
    ensures AllPartway(disk.trail, |old(disk.trail)|, fs0, from, to, guard, names)
    ensures ok ==> Copied(fs0, disk.fs, from, to, guard, done + {n})
    decreases |Walked(fs0, from, guard)|, 0, 0
  {
    var src, dst := from + [n], to + [n];
    ChildrenAre(fs0, from, n);
    SourceUntouched(fs0, disk.fs, from, to, guard, done, names, n);
    RootsStay(fs0, disk.fs, from, to, guard, done);
    EntryStays(fs0, disk.fs, from, guard, n);
    assert Parent(dst) == to && Placed(disk.fs, dst);
    ghost var fs1 := disk.fs;
    CopiedIsPartway(fs0, fs1, from, to, guard, done, names);
    var fails := disk.Flaky();
    if fails {
      return false;
    }
    match disk.fs[src]
    case Dir =>
      if src == guard {
        SkippedEntry(fs0, fs1, from, to, guard, done, n);
        return true;
      }
      WalkShrinks(fs0, fs1, from, guard, n);
      ApartBelow(fs0, fs1, from, to, guard, names, n, Kept(fs1, src, excluded, false));
      EntryIsNotTo(fs0, from, to, guard, names, n);
      ok := CopyTree(disk, src, dst, excluded, guard, false);
      forall s | Partway(fs1, s, src, dst, guard, Kept(fs1, src, excluded, false)) ensures Partway(fs0, s, from, to, guard, names) {
        ChildPartway(fs0, fs1, s, from, to, guard, done, names, n, excluded);
      }
      if ok { DirEntry(fs0, fs1, disk.fs, from, to, guard, done, n, excluded); }
    case File(_) =>
      ok := disk.CopyFile(src, dst);
      forall s | FileWritten(fs1, s, dst) ensures Partway(fs0, s, from, to, guard, names) {
        FilePartway(fs0, fs1, s, from, to, guard, done, names, n);
      }
      if ok { FileEntry(fs0, fs1, from, to, guard, done, n); }
    case Link =>
      SkippedEntry(fs0, fs1, from, to, guard, done, n);
      return true;
  }
}
