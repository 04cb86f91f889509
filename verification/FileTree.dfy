/** A file system as a map from canonical paths to nodes, with the calls crates/domain/src/backup.rs
    makes on it. Every call may fail, and every state the disk passes through is recorded. */
module FileTree {
  import opened Options
  import opened Sorting

  type Path = seq<string>

  datatype Node = Dir | File(content: string) | Link

  type Fs = map<Path, Node>

  function Lookup(fs: Fs, p: Path): Option<Node> {
    if p in fs then Some(fs[p]) else None
  }

  function Parent(p: Path): Path
    requires p != []
  {
    p[..|p| - 1]
  }

  /** Every node but the root sits in a directory. */
  ghost predicate WellFormed(fs: Fs) {
    && Lookup(fs, []) == Some(Dir)
    && forall p {:trigger Placed(fs, p)} :: p in fs && p != [] ==> Placed(fs, p)
  }

  ghost predicate Placed(fs: Fs, p: Path)
    requires p != []
  {
    Lookup(fs, Parent(p)) == Some(Dir)
  }

  lemma {:induction false} AncestorsAreDirs(fs: Fs, p: Path, k: nat)
    requires WellFormed(fs) && p in fs && k < |p|
    ensures Lookup(fs, p[..k]) == Some(Dir)
    decreases |p|
  {
    assert Placed(fs, p);
    if k < |p| - 1 {
      AncestorsAreDirs(fs, Parent(p), k);
      assert Parent(p)[..k] == p[..k];
    }
  }

  /** Everything not under `root` is the same. */
  ghost predicate SameOutside(fs: Fs, fs': Fs, root: Path) {
    forall q :: !(root <= q) ==> Lookup(fs', q) == Lookup(fs, q)
  }

  /** The same, except that missing directories down to `p` may have appeared. */
  ghost predicate OnlyRoom(fs: Fs, fs': Fs, p: Path) {
    forall q :: Lookup(fs', q) == Lookup(fs, q) || (q !in fs && q <= p && Lookup(fs', q) == Some(Dir))
  }

  /** Outside `root`, the same but for missing ancestors of `root` that may have become directories. */
  ghost predicate SameButRoom(fs: Fs, fs': Fs, root: Path) {
    forall q :: !(root <= q) ==>
      Lookup(fs', q) == Lookup(fs, q) || (q !in fs && q <= root && Lookup(fs', q) == Some(Dir))
  }

  /** Nodes under `root` may be missing, and nothing else differs; a plain file there is not removed. */
  ghost predicate Pruned(fs: Fs, fs': Fs, root: Path) {
    && SameOutside(fs, fs', root)
    && (forall q :: root <= q && q in fs' ==> Lookup(fs', q) == Lookup(fs, q))
    && (root in fs && fs[root].File? ==> fs' == fs)
  }

  /** Something on the way to `p`, or at it, is not a directory. */
  ghost predicate Obstructed(fs: Fs, p: Path) {
    exists a :: a <= p && a in fs && !fs[a].Dir?
  }

  /** Only the file `p` has been written. */
  ghost predicate FileWritten(fs: Fs, fs': Fs, p: Path) {
    p in fs' && fs'[p].File? && fs' == fs[p := fs'[p]]
  }

  ghost predicate NothingUnder(fs: Fs, root: Path) {
    forall q :: root <= q ==> q !in fs
  }

  /** `fs` with the missing directories down to `p`. */
  function WithDirs(fs: Fs, p: Path): Fs
    decreases |p|
  {
    if p == [] || p in fs then fs else WithDirs(fs, Parent(p))[p := Dir]
  }

  lemma {:induction false} WithDirsLookup(fs: Fs, p: Path, q: Path)
    requires WellFormed(fs)
    ensures Lookup(WithDirs(fs, p), q) == if q !in fs && q <= p then Some(Dir) else Lookup(fs, q)
    decreases |p|
  {
    if p != [] && p !in fs {
      WithDirsLookup(fs, Parent(p), q);
      assert q <= p <==> q == p || q <= Parent(p);
    } else if q <= p && q != p {
      AncestorsAreDirs(fs, p, |q|);
      assert p[..|q|] == q;
    }
  }

  lemma {:induction false} WithDirsWellFormed(fs: Fs, p: Path)
    requires WellFormed(fs) && (p in fs || p == [] || !Obstructed(fs, p[..|p| - 1]))
    ensures WellFormed(WithDirs(fs, p))
    decreases |p|
  {
    if p != [] && p !in fs {
      var above := Parent(p);
      if above != [] && above !in fs {
        forall a | a <= above[..|above| - 1] && a in fs ensures fs[a].Dir? {
          assert a <= above;
        }
      }
      WithDirsWellFormed(fs, above);
      var s, s' := WithDirs(fs, above), WithDirs(fs, p);
      WithDirsLookup(fs, above, above);
      assert Lookup(s, above) == Some(Dir);
      forall q | q in s' && q != [] ensures Placed(s', q) {
        if q != p { assert Placed(s, q); }
      }
    }
  }

  class Disk {
    var fs: Fs
    /** Every state so far, the present one last: what a crash could leave behind. */
    ghost var trail: seq<Fs>

    ghost predicate Valid()
      reads this
    {
      && WellFormed(fs) && trail != [] && trail[|trail| - 1] == fs
      && forall k :: 0 <= k < |trail| ==> WellFormed(trail[k])
    }

    /** The environment decides whether a call fails. */
    method Flaky() returns (fails: bool)
    {
      fails := *;
    }

    method Put(p: Path, node: Node)
      requires Valid() && p != [] && Placed(fs, p)
      requires p in fs ==> fs[p].File? && node.File?
      modifies this
      ensures Valid() && fs == old(fs)[p := node] && trail == old(trail) + [fs]
    {
      fs := fs[p := node];
      trail := trail + [fs];
      forall q | q in fs && q != [] ensures Placed(fs, q) {
        if q != p { assert Placed(old(fs), q); }
      }
    }

    /** `fs::create_dir_all`. */
    method CreateDirAll(p: Path) returns (ok: bool)
      requires Valid()
      modifies this
      ensures Valid() && old(trail) <= trail
      ensures ok ==> fs == WithDirs(old(fs), p) && Lookup(fs, p) == Some(Dir)
      ensures OnlyRoom(old(fs), fs, p)
      ensures forall k :: |old(trail)| <= k < |trail| ==> OnlyRoom(old(fs), trail[k], p)
      ensures Obstructed(old(fs), p) ==> !ok && fs == old(fs) && trail == old(trail)
      decreases |p|
    {
      if p in fs {
        ObstructedAt(fs, p);
        return fs[p].Dir?;
      }
      var above := p[..|p| - 1];
      ObstructedAbove(fs, p);
      ok := CreateDirAll(above);
      RoomGrows(old(fs), above, p);
      var fails := Flaky();
      if !ok || fails {
        return false;
      }
      WithDirsLookup(old(fs), above, p);
      Put(p, Dir);
    }
  
    /** `fs::remove_dir_all`: leaves first, one at a time, stopping where a removal fails; of a symlink
        only the link itself. */
    method RemoveDirAll(p: Path) returns (ok: bool)
      requires Valid() && p != []
      modifies this
      ensures Valid() && old(trail) <= trail
      ensures Pruned(old(fs), fs, p)
      ensures forall k :: |old(trail)| <= k < |trail| ==> Pruned(old(fs), trail[k], p)
      ensures ok ==> NothingUnder(fs, p)
      ensures p !in old(fs) ==> fs == old(fs) && trail == old(trail) && NothingUnder(fs, p)
      ensures p in old(fs) && old(fs)[p].File? ==> fs == old(fs) && trail == old(trail)
    {
      if p !in fs || fs[p].File? {
        if p !in fs { AbsentMeansEmpty(fs, p); }
        return false;
      }
      var left := Under(fs, p);
      while left != {}
        invariant Valid() && old(trail) <= trail && left == Under(fs, p)
        invariant Pruned(old(fs), fs, p)
        invariant forall k :: |old(trail)| <= k < |trail| ==> Pruned(old(fs), trail[k], p)
      {
        var fails := Flaky();
        if fails {
          return false;
        }
        var q := Deepest(left);
        RemoveLeaf(q, p);
        left := left - {q};
      }
      assert forall q :: p <= q && q in fs ==> q in left;
      return true;
    }

    method RemoveLeaf(q: Path, ghost p: Path)
      requires Valid() && p != [] && q in Under(fs, p) && forall r :: r in Under(fs, p) ==> |r| <= |q|
      modifies this
      ensures Valid() && fs == old(fs) - {q} && trail == old(trail) + [fs]
    {
      ghost var before := fs;
      fs := fs - {q};
      trail := trail + [fs];
      forall r | r in fs && r != [] ensures Placed(fs, r) {
        assert Placed(old(fs), r);
        assert p <= q && Parent(r) == q ==> r in before && p <= r;
      }
    }

    /** `fs::copy` of a file: the destination is emptied, then filled. */
    method CopyFile(src: Path, dst: Path) returns (ok: bool)
      requires Valid() && src in fs && fs[src].File? && src != dst
      requires dst != [] && Placed(fs, dst)
      modifies this
      ensures Valid() && old(trail) <= trail
      ensures ok ==> fs == old(fs)[dst := old(fs)[src]]
      ensures fs == old(fs) || FileWritten(old(fs), fs, dst)
      ensures forall k :: |old(trail)| <= k < |trail| ==> FileWritten(old(fs), trail[k], dst)
    {
      var fails := Flaky();
      if fails || (dst in fs && !fs[dst].File?) {
        return false;
      }
      Put(dst, File(""));
      fails := Flaky();
      if fails {
        return false;
      }
      Put(dst, fs[src]);
      assert fs == old(fs)[dst := old(fs)[src]];
      return true;
    }

    /** `fs::rename` of a directory. Onto something that exists it fails, unless that is an empty
        directory, which some platforms replace. */
    method Rename(src: Path, dst: Path) returns (ok: bool)
      requires Valid() && Lookup(fs, src) == Some(Dir) && src != [] && dst != []
      requires !(src <= dst) && !(dst <= src) && Placed(fs, dst)
      modifies this
      ensures Valid()
      ensures ok ==> fs == Moved(old(fs), src, dst) && trail == old(trail) + [fs]
      ensures !ok ==> fs == old(fs) && trail == old(trail)
      ensures ok && dst in old(fs) ==> Under(old(fs), dst) == {dst}
    {
      var fails := Flaky();
      if fails || (dst in fs && (!fs[dst].Dir? || Under(fs, dst) != {dst})) {
        return false;
      }
      MovedWellFormed(fs, src, dst);
      fs := Moved(fs, src, dst);
      trail := trail + [fs];
      return true;
    }
  }

  function Under(fs: Fs, p: Path): set<Path> {
    set q | q in fs && p <= q
  }

  /** The path `q` under `from`, carried over to `to`. */
  function Rebase(from: Path, to: Path, q: Path): Path
    requires from <= q
  {
    to + q[|from|..]
  }

  lemma RebaseBack(from: Path, to: Path, q: Path)
    requires from <= q
    ensures to <= Rebase(from, to, q) && Rebase(to, from, Rebase(from, to, q)) == q
  {
    assert Rebase(from, to, q)[|to|..] == q[|from|..];
    assert from + q[|from|..] == q;
  }

  /** The subtree at `src` carried over to `dst`, replacing what was there. */
  function Moved(fs: Fs, src: Path, dst: Path): Fs
  {
    (map q | q in fs && !(src <= q) && !(dst <= q) :: fs[q])
    + (map q | q in RebasedPaths(fs, src, dst) :: fs[Rebase(dst, src, q)])
  }

  function RebasedPaths(fs: Fs, src: Path, dst: Path): (s: set<Path>)
    ensures forall q :: q in s <==> dst <= q && Rebase(dst, src, q) in fs
  {
    RebasesBothWays(fs, src, dst);
    set q | q in Under(fs, src) :: Rebase(src, dst, q)
  }

  lemma RebasesBothWays(fs: Fs, src: Path, dst: Path)
    ensures forall q :: q in Under(fs, src) ==> dst <= Rebase(src, dst, q) && Rebase(dst, src, Rebase(src, dst, q)) == q
    ensures forall q :: dst <= q ==> src <= Rebase(dst, src, q) && Rebase(src, dst, Rebase(dst, src, q)) == q
  {
    forall q | q in Under(fs, src) ensures dst <= Rebase(src, dst, q) && Rebase(dst, src, Rebase(src, dst, q)) == q {
      RebaseBack(src, dst, q);
    }
    forall q | dst <= q ensures src <= Rebase(dst, src, q) && Rebase(src, dst, Rebase(dst, src, q)) == q {
      RebaseBack(dst, src, q);
    }
  }

  lemma MovedLookup(fs: Fs, src: Path, dst: Path, q: Path)
    ensures Lookup(Moved(fs, src, dst), q)
            == if dst <= q then Lookup(fs, Rebase(dst, src, q)) else if src <= q then None else Lookup(fs, q)
  {
  }

  lemma MovedWellFormed(fs: Fs, src: Path, dst: Path)
    requires WellFormed(fs) && Lookup(fs, src) == Some(Dir) && src != [] && dst != []
    requires !(src <= dst) && !(dst <= src) && Placed(fs, dst)
    requires dst in fs ==> Under(fs, dst) == {dst}
    ensures WellFormed(Moved(fs, src, dst))
  {
    var fs' := Moved(fs, src, dst);
    MovedLookup(fs, src, dst, []);
    forall q | q in fs' && q != [] ensures Placed(fs', q) {
      MovedLookup(fs, src, dst, q);
      MovedLookup(fs, src, dst, Parent(q));
      if dst <= q {
        if q != dst {
          var s := Rebase(dst, src, q);
          assert Placed(fs, s);
          assert Parent(s) == Rebase(dst, src, Parent(q));
        }
      } else {
        assert Placed(fs, q);
        assert Parent(q) <= q;
        assert dst <= Parent(q) ==> dst <= q;
        assert src <= Parent(q) ==> src <= q;
      }
    }
  }

  lemma AbsentMeansEmpty(fs: Fs, p: Path)
    requires WellFormed(fs) && p !in fs
    ensures NothingUnder(fs, p)
  {
    forall q | p <= q ensures q in fs ==> p in fs {
      if q in fs && q != p {
        assert q[..|p|] == p;
        AncestorsAreDirs(fs, q, |p|);
      }
    }
  }

  /** A path of greatest length. */
  method Deepest(s: set<Path>) returns (p: Path)
    requires s != {}
    ensures p in s && forall q :: q in s ==> |q| <= |p|
  {
    p := AnyOf(s);
    var rest := s - {p};
    while rest != {}
      invariant p in s && rest <= s
      invariant forall q :: q in s && q !in rest ==> |q| <= |p|
    {
      var q := AnyOf(rest);
      if |q| > |p| { p := q; }
      rest := rest - {q};
    }
  }

  lemma ObstructedAbove(fs: Fs, p: Path)
    requires p != [] && p !in fs
    ensures Obstructed(fs, p) ==> Obstructed(fs, p[..|p| - 1])
  {
    if Obstructed(fs, p) {
      var a :| a <= p && a in fs && !fs[a].Dir?;
      assert a == p[..|a|] && (|a| == |p| ==> a == p);
      assert a == p[..|p| - 1][..|a|];
    }
  }

  /** Where something is, only it can obstruct. */
  lemma ObstructedAt(fs: Fs, p: Path)
    requires WellFormed(fs) && p in fs
    ensures Obstructed(fs, p) ==> !fs[p].Dir?
  {
    forall a | a <= p && a in fs && a != p ensures fs[a].Dir? {
      AncestorsAreDirs(fs, p, |a|);
      assert p[..|a|] == a;
    }
  }

  lemma RoomGrows(fs: Fs, p: Path, p': Path)
    requires p <= p'
    ensures forall fs' :: OnlyRoom(fs, fs', p) ==> OnlyRoom(fs, fs', p')
  {
    forall fs' | OnlyRoom(fs, fs', p) ensures OnlyRoom(fs, fs', p') {
      forall q ensures Lookup(fs', q) == Lookup(fs, q) || (q !in fs && q <= p' && Lookup(fs', q) == Some(Dir)) {}
    }
  }
}
