/** Community detection (crates/codegraph/src/community.rs): union-find with path compression and
    unranked linking, then components collected, sorted and renumbered. */
module CommunityDetection {
  import opened Sorting

  datatype Edge = Edge(from: int, to: int)
  datatype Community = Community(id: nat, members: seq<int>)

  // ---- Undirected connectivity, the reference the detector is measured against ----

  ghost predicate Adjacent(edges: seq<Edge>, a: int, b: int) {
    Edge(a, b) in edges || Edge(b, a) in edges
  }

  ghost predicate IsPath(edges: seq<Edge>, p: seq<int>) {
    && p != []
    && forall i, j :: 0 <= i && j == i + 1 && j < |p| ==> Adjacent(edges, p[i], p[j])
  }

  ghost predicate Connected(edges: seq<Edge>, a: int, b: int) {
    exists p :: IsPath(edges, p) && p[0] == a && p[|p| - 1] == b
  }

  lemma ConnectedRefl(edges: seq<Edge>, a: int)
    ensures Connected(edges, a, a)
  {
    assert IsPath(edges, [a]);
  }

  lemma ConnectedStep(edges: seq<Edge>, a: int, b: int)
    requires Adjacent(edges, a, b)
    ensures Connected(edges, a, b)
  {
    assert IsPath(edges, [a, b]);
  }

  lemma ConnectedTrans(edges: seq<Edge>, a: int, b: int, c: int)
    requires Connected(edges, a, b) && Connected(edges, b, c)
    ensures Connected(edges, a, c)
  {
    var p :| IsPath(edges, p) && p[0] == a && p[|p| - 1] == b;
    var q :| IsPath(edges, q) && q[0] == b && q[|q| - 1] == c;
    var r := p + q[1..];
    forall i, j | 0 <= i && j == i + 1 && j < |r| ensures Adjacent(edges, r[i], r[j]) {
      if j < |p| {
        assert Adjacent(edges, p[i], p[j]);
      } else {
        assert Adjacent(edges, q[i - |p| + 1], q[j - |p| + 1]);
      }
    }
    assert IsPath(edges, r);
  }

  lemma ConnectedSym(edges: seq<Edge>, a: int, b: int)
    requires Connected(edges, a, b)
    ensures Connected(edges, b, a)
  {
    var p :| IsPath(edges, p) && p[0] == a && p[|p| - 1] == b;
    var r := seq(|p|, i requires 0 <= i < |p| => p[|p| - 1 - i]);
    forall i, j | 0 <= i && j == i + 1 && j < |r| ensures Adjacent(edges, r[i], r[j]) {
      assert Adjacent(edges, p[|p| - 1 - j], p[|p| - 1 - i]);
    }
    assert IsPath(edges, r);
  }

  /** Connectivity depends on the edges only through who is adjacent to whom. */
  lemma ConnectedByAdjacency(edges: seq<Edge>, edges': seq<Edge>, a: int, b: int)
    requires forall x, y :: Adjacent(edges, x, y) ==> Adjacent(edges', x, y)
    requires Connected(edges, a, b)
    ensures Connected(edges', a, b)
  {
    var p :| IsPath(edges, p) && p[0] == a && p[|p| - 1] == b;
    assert IsPath(edges', p);
  }

  // ---- Parent forests ----

  /** `depth` strictly decreases along every parent link, so the links form a forest. */
  ghost predicate Forest(parent: map<int, int>, depth: map<int, nat>) {
    && parent.Keys == depth.Keys
    && forall x {:trigger Descends(parent, depth, x)} :: x in parent ==> Descends(parent, depth, x)
  }

  ghost predicate Descends(parent: map<int, int>, depth: map<int, nat>, x: int)
    requires x in parent
  {
    var p := parent[x];
    p in parent && x in depth && p in depth && (p != x ==> depth[p] < depth[x])
  }

  /** Where following parent links from `x` ends. */
  ghost function Root(parent: map<int, int>, depth: map<int, nat>, x: int): (r: int)
    requires Forest(parent, depth) && x in parent
    ensures r in parent && parent[r] == r
    ensures depth[r] <= depth[x] && (r != x ==> depth[r] < depth[x])
    decreases depth[x]
  {
    assert Descends(parent, depth, x);
    if parent[x] == x then x else Root(parent, depth, parent[x])
  }

  lemma CompressionKeepsForest(parent: map<int, int>, depth: map<int, nat>, x: int)
    requires Forest(parent, depth) && x in parent
    ensures Forest(parent[x := Root(parent, depth, x)], depth)
  {
    var parent' := parent[x := Root(parent, depth, x)];
    forall z | z in parent' ensures Descends(parent', depth, z) {
      assert Descends(parent, depth, z);
    }
  }

  /** Pointing `x` straight at its root changes nobody's root. */
  lemma {:induction false} CompressionKeepsRoots(parent: map<int, int>, depth: map<int, nat>, x: int, y: int)
    requires Forest(parent, depth) && x in parent && y in parent
    requires Forest(parent[x := Root(parent, depth, x)], depth)
    ensures Root(parent[x := Root(parent, depth, x)], depth, y) == Root(parent, depth, y)
    decreases depth[y]
  {
    assert Descends(parent, depth, y);
    if y != x && parent[y] != y {
      CompressionKeepsRoots(parent, depth, x, parent[y]);
    }
  }

  /** The measure after hanging root `ra` under root `rb`. */
  ghost function LinkedDepth(parent: map<int, int>, depth: map<int, nat>, ra: int, rb: int): map<int, nat>
    requires Forest(parent, depth) && ra in parent && rb in parent
  {
    map y | y in parent :: if Root(parent, depth, y) == ra then depth[y] + depth[rb] + 1 else depth[y]
  }

  /** Everybody's root at once. */
  ghost function Roots(parent: map<int, int>, depth: map<int, nat>): (roots: map<int, int>)
    requires Forest(parent, depth)
  {
    map x | x in parent :: Root(parent, depth, x)
  }

  /** The root map after the tree of `ra` is hung under `rb`. */
  ghost function Merged(roots: map<int, int>, ra: int, rb: int): map<int, int> {
    map x | x in roots :: if roots[x] == ra then rb else roots[x]
  }

  /** Linking two different roots keeps the forest and merges exactly their two trees. */
  lemma {:induction false} LinkMergesTrees(parent: map<int, int>, depth: map<int, nat>, ra: int, rb: int)
    requires Forest(parent, depth) && ra in parent && rb in parent
    requires parent[ra] == ra && parent[rb] == rb && ra != rb
    ensures Forest(parent[ra := rb], LinkedDepth(parent, depth, ra, rb))
    ensures Roots(parent[ra := rb], LinkedDepth(parent, depth, ra, rb)) == Merged(Roots(parent, depth), ra, rb)
  {
    LinkKeepsForest(parent, depth, ra, rb);
    var depth' := LinkedDepth(parent, depth, ra, rb);
    forall y | y in parent
      ensures Roots(parent[ra := rb], depth')[y] == Merged(Roots(parent, depth), ra, rb)[y]
    {
      LinkMovesRoot(parent, depth, ra, rb, y);
    }
  }

  lemma {:induction false} LinkKeepsForest(parent: map<int, int>, depth: map<int, nat>, ra: int, rb: int)
    requires Forest(parent, depth) && ra in parent && rb in parent
    requires parent[ra] == ra && parent[rb] == rb && ra != rb
    ensures Forest(parent[ra := rb], LinkedDepth(parent, depth, ra, rb))
  {
    var parent', depth' := parent[ra := rb], LinkedDepth(parent, depth, ra, rb);
    assert Root(parent, depth, rb) == rb;
    forall y | y in parent' ensures Descends(parent', depth', y) {
      assert Descends(parent, depth, y);
    }
  }

  lemma {:induction false} LinkMovesRoot(parent: map<int, int>, depth: map<int, nat>, ra: int, rb: int, y: int)
    requires Forest(parent, depth) && ra in parent && rb in parent && y in parent
    requires parent[ra] == ra && parent[rb] == rb && ra != rb
    requires Forest(parent[ra := rb], LinkedDepth(parent, depth, ra, rb))
    ensures Root(parent[ra := rb], LinkedDepth(parent, depth, ra, rb), y)
            == if Root(parent, depth, y) == ra then rb else Root(parent, depth, y)
    decreases depth[y]
  {
    var depth' := LinkedDepth(parent, depth, ra, rb);
    assert Descends(parent, depth, y) && Descends(parent[ra := rb], depth', y);
    if y == ra {
      assert Root(parent[ra := rb], depth', rb) == rb;
    }
    if parent[y] != y {
      LinkMovesRoot(parent, depth, ra, rb, parent[y]);
    }
  }

  // ---- The mutable parent map ----

  class UnionFind {
    var parent: map<int, int>
    ghost var depth: map<int, nat>

    ghost predicate Valid()
      reads this
    {
      Forest(parent, depth)
    }

    /** The abstract value: who represents whom. */
    ghost function Representatives(): (roots: map<int, int>)
      requires Valid()
      reads this
    {
      Roots(parent, depth)
    }

    /** Every node starts as its own parent. */
    constructor (nodes: seq<int>)
      ensures Valid()
      ensures Representatives() == map n | n in nodes :: n
    {
      parent := map n | n in nodes :: n;
      depth := map n | n in nodes :: 0;
      new;
      forall x | x in parent ensures Descends(parent, depth, x) {}
    }

    /** Returns the root of `x` and points `x` at it; path compression changes nobody's root. */
    method Find(x: int) returns (r: int)
      requires Valid() && x in parent
      modifies this
      ensures Valid() && depth == old(depth)
      ensures Representatives() == old(Representatives())
      ensures r == Representatives()[x] && parent[x] == r
      decreases depth[x]
    {
      assert Descends(parent, depth, x);
      if parent[x] == x {
        return x;
      }
      r := Find(parent[x]);
      assert old(Representatives())[x] == old(Representatives())[old(parent[x])];
      CompressionKeepsForest(parent, depth, x);
      forall y | y in parent
        ensures Roots(parent[x := r], depth)[y] == Roots(parent, depth)[y]
      {
        CompressionKeepsRoots(parent, depth, x, y);
      }
      parent := parent[x := r];
    }

    /** One edge of the detection loop: find both roots and hang the first under the second. */
    method Join(a: int, b: int)
      requires Valid() && a in parent && b in parent
      modifies this
      ensures Valid()
      ensures Representatives() == old(Merged(Representatives(), Representatives()[a], Representatives()[b]))
    {
      var ra := Find(a);
      var rb := Find(b);
      if ra != rb {
        LinkMergesTrees(parent, depth, ra, rb);
        parent, depth := parent[ra := rb], LinkedDepth(parent, depth, ra, rb);
      }
    }
  }

  // ---- What the detector promises ----

  /** `members` holds every occurrence of every node connected to its first entry, and nothing else. */
  ghost predicate IsComponent(nodes: seq<int>, edges: seq<Edge>, members: seq<int>) {
    && members != []
    && forall x :: multiset(members)[x] == if Connected(edges, members[0], x) then multiset(nodes)[x] else 0
  }

  /** The canonical listing of the connected components: sorted members, components ordered by least
      member, ids counting from zero, every node present. */
  ghost predicate Canonical(nodes: seq<int>, edges: seq<Edge>, result: seq<Community>) {
    && (forall k :: 0 <= k < |result| ==>
          && result[k].id == k
          && (forall i, j :: 0 <= i < j < |result[k].members| ==> result[k].members[i] <= result[k].members[j])
          && IsComponent(nodes, edges, result[k].members))
    && (forall k, l :: 0 <= k < l < |result| ==> result[k].members[0] < result[l].members[0])
    && (forall x :: x in nodes ==> Listed(result, x))
  }

  ghost predicate Listed(result: seq<Community>, x: int) {
    exists k :: 0 <= k < |result| && x in result[k].members
  }

  /** The sort key: the first member, or 0 when there is none. */
  function Key(c: Community): int { if c.members == [] then 0 else c.members[0] }

  predicate KeyLeq(a: Community, b: Community) { Key(a) <= Key(b) }

  /** `roots` answers connectivity: the state of the forest once every edge is in. */
  ghost predicate RootsDecide(nodes: seq<int>, edges: seq<Edge>, roots: map<int, int>) {
    && roots.Keys == (set n | n in nodes)
    && forall x, y :: x in roots && y in roots ==> (roots[x] == roots[y] <==> Connected(edges, x, y))
  }

  lemma {:induction false} RootsAgreeAlongPath(edges: seq<Edge>, roots: map<int, int>, p: seq<int>)
    requires forall e :: e in edges ==> e.from in roots && e.to in roots && roots[e.from] == roots[e.to]
    requires IsPath(edges, p) && p[0] in roots
    ensures p[|p| - 1] in roots && roots[p[|p| - 1]] == roots[p[0]]
    decreases |p|
  {
    if |p| > 1 {
      assert Adjacent(edges, p[0], p[1]);
      forall i, j | 0 <= i && j == i + 1 && j < |p[1..]| ensures Adjacent(edges, p[1..][i], p[1..][j]) {
        assert Adjacent(edges, p[i + 1], p[j + 1]);
      }
      RootsAgreeAlongPath(edges, roots, p[1..]);
    }
  }

  lemma RootsDecideFrom(nodes: seq<int>, edges: seq<Edge>, roots: map<int, int>)
    requires roots.Keys == set n | n in nodes
    requires forall e :: e in edges ==> e.from in roots && e.to in roots && roots[e.from] == roots[e.to]
    requires forall x :: x in roots ==> Connected(edges, x, roots[x])
    ensures RootsDecide(nodes, edges, roots)
  {
    forall x, y | x in roots && y in roots ensures roots[x] == roots[y] <==> Connected(edges, x, y) {
      if roots[x] == roots[y] {
        ConnectedSym(edges, y, roots[y]);
        ConnectedTrans(edges, x, roots[x], y);
      }
      if Connected(edges, x, y) {
        var p :| IsPath(edges, p) && p[0] == x && p[|p| - 1] == y;
        RootsAgreeAlongPath(edges, roots, p);
      }
    }
  }

  /** The first `i` edges are in: their endpoints share a root, and every node is joined to its root. */
  ghost predicate JoinedUpTo(nodes: seq<int>, edges: seq<Edge>, roots: map<int, int>, i: nat)
    requires i <= |edges|
  {
    && roots.Keys == (set n | n in nodes)
    && (forall x :: x in roots ==> Connected(edges, x, roots[x]))
    && forall k :: 0 <= k < i ==> edges[k].from in roots && edges[k].to in roots && roots[edges[k].from] == roots[edges[k].to]
  }

  lemma JoinOneMore(nodes: seq<int>, edges: seq<Edge>, roots: map<int, int>, i: nat)
    requires i < |edges| && edges[i].from in nodes && edges[i].to in nodes && JoinedUpTo(nodes, edges, roots, i)
    ensures edges[i].from in roots && edges[i].to in roots
    ensures JoinedUpTo(nodes, edges, Merged(roots, roots[edges[i].from], roots[edges[i].to]), i + 1)
  {
    assert edges[i].from in roots && edges[i].to in roots;
    JoinStaysConnected(edges, roots, edges[i]);
  }

  /** Lines 40-57: the loop over the edges. */
  method UnionAll(nodes: seq<int>, edges: seq<Edge>) returns (uf: UnionFind)
    requires forall e :: e in edges ==> e.from in nodes && e.to in nodes
    ensures fresh(uf) && uf.Valid()
    ensures RootsDecide(nodes, edges, uf.Representatives())
  {
    uf := new UnionFind(nodes);
    ghost var roots := uf.Representatives();
    forall x | x in roots ensures Connected(edges, x, roots[x]) {
      ConnectedRefl(edges, x);
    }
    for i := 0 to |edges|
      invariant fresh(uf) && uf.Valid() && JoinedUpTo(nodes, edges, uf.Representatives(), i)
    {
      JoinOneMore(nodes, edges, uf.Representatives(), i);
      uf.Join(edges[i].from, edges[i].to);
    }
    RootsDecideFrom(nodes, edges, uf.Representatives());
  }

  lemma JoinStaysConnected(edges: seq<Edge>, roots: map<int, int>, e: Edge)
    requires e in edges && e.from in roots && e.to in roots
    requires forall x :: x in roots ==> Connected(edges, x, roots[x])
    ensures var roots' := Merged(roots, roots[e.from], roots[e.to]);
            forall x :: x in roots' ==> Connected(edges, x, roots'[x])
  {
    var ra, rb := roots[e.from], roots[e.to];
    assert Connected(edges, ra, rb) by {
      ConnectedSym(edges, e.from, ra);
      ConnectedStep(edges, e.from, e.to);
      ConnectedTrans(edges, ra, e.from, e.to);
      ConnectedTrans(edges, ra, e.to, rb);
    }
    forall x | x in roots && roots[x] == ra ensures Connected(edges, x, rb) {
      ConnectedTrans(edges, x, ra, rb);
    }
  }

  /** `groups` maps each root met so far to the nodes met so far that have it. */
  ghost predicate GroupedBy(seen: seq<int>, roots: map<int, int>, groups: map<int, seq<int>>) {
    && (forall n :: n in seen ==> n in roots && roots[n] in groups)
    && (forall r :: r in groups ==> groups[r] != [])
    && (forall r, x :: r in groups ==>
          multiset(groups[r])[x] == if x in roots && roots[x] == r then multiset(seen)[x] else 0)
  }

  lemma GroupOneMore(seen: seq<int>, roots: map<int, int>, groups: map<int, seq<int>>, n: int)
    requires GroupedBy(seen, roots, groups) && n in roots
    ensures var r := roots[n];
            GroupedBy(seen + [n], roots, groups[r := (if r in groups then groups[r] else []) + [n]])
  {
    var r := roots[n];
    forall x | r !in groups && x in roots && roots[x] == r ensures multiset(seen)[x] == 0 {
      assert x in multiset(seen) ==> x in seen;
    }
  }

  /** Lines 59-64: members collected by root. */
  method Collect(nodes: seq<int>, uf: UnionFind) returns (groups: map<int, seq<int>>)
    requires uf.Valid() && forall n :: n in nodes ==> n in uf.Representatives()
    modifies uf
    ensures GroupedBy(nodes, old(uf.Representatives()), groups)
  {
    groups := map[];
    ghost var roots := uf.Representatives();
    for i := 0 to |nodes|
      invariant uf.Valid() && uf.Representatives() == roots
      invariant GroupedBy(nodes[..i], roots, groups)
    {
      var n := nodes[i];
      var r := uf.Find(n);
      GroupOneMore(nodes[..i], roots, groups, n);
      assert nodes[..i + 1] == nodes[..i] + [n];
      groups := groups[r := (if r in groups then groups[r] else []) + [n]];
    }
    assert nodes[..|nodes|] == nodes;
  }

  /** Each listed community is one whole group, and no group is listed twice. */
  ghost predicate ListsGroups(groups: map<int, seq<int>>, from: seq<int>, result: seq<Community>) {
    && |result| == |from|
    && (forall k :: 0 <= k < |from| ==>
          from[k] in groups && Sorted(result[k].members, IntLeq) && multiset(result[k].members) == multiset(groups[from[k]]))
    && (forall k, l :: 0 <= k < l < |from| ==> from[k] != from[l])
  }

  /** Every group is listed. */
  ghost predicate ListsAll(groups: map<int, seq<int>>, result: seq<Community>) {
    exists from :: ListsGroups(groups, from, result) && forall r :: r in groups ==> r in from
  }

  /** Lines 66-77: the values of the map in whatever order it yields them, each sorted. */
  method ListGroups(groups: map<int, seq<int>>) returns (result: seq<Community>)
    ensures ListsAll(groups, result)
  {
    result := [];
    ghost var from := [];
    var left := groups.Keys;
    while left != {}
      invariant left <= groups.Keys
      invariant ListsGroups(groups, from, result)
      invariant forall r :: r in groups ==> (r in from <==> r !in left)
    {
      var r := AnyOf(left);
      result := result + [Community(|result|, Sort(groups[r], IntLeq))];
      from := from + [r];
      left := left - {r};
    }
  }

  lemma GroupIsComponent(nodes: seq<int>, edges: seq<Edge>, roots: map<int, int>, groups: map<int, seq<int>>, r: int, c: Community)
    requires RootsDecide(nodes, edges, roots) && GroupedBy(nodes, roots, groups)
    requires r in groups && multiset(c.members) == multiset(groups[r]) && Sorted(c.members, IntLeq)
    ensures ListsRoot(nodes, edges, roots, c, r)
  {
    var members := c.members;
    assert groups[r][0] in multiset(groups[r]);
    assert members[0] in multiset(members);
    forall x ensures multiset(members)[x] == if Connected(edges, members[0], x) then multiset(nodes)[x] else 0 {
      assert x in nodes <==> x in multiset(nodes);
    }
    forall x | x in nodes && roots[x] == r ensures x in members {
      assert x in multiset(nodes);
      assert x in multiset(members);
    }
  }

  /** Lines 39-84. The caller must keep edge endpoints among the nodes: `find` panics on others. */
  method Detect(nodes: seq<int>, edges: seq<Edge>) returns (result: seq<Community>)
    requires forall e :: e in edges ==> e.from in nodes && e.to in nodes
    ensures Canonical(nodes, edges, result)
  {
    var uf := UnionAll(nodes, edges);
    ghost var roots := uf.Representatives();
    var groups := Collect(nodes, uf);
    result := ListGroups(groups);
    ghost var unsorted := result;
    result := Sort(result, KeyLeq);
    ghost var sorted := result;
    result := Renumber(result);
    SortedIsCanonical(nodes, edges, roots, groups, unsorted, sorted, result);
  }

  lemma SortedIsCanonical(nodes: seq<int>, edges: seq<Edge>, roots: map<int, int>, groups: map<int, seq<int>>,
                          unsorted: seq<Community>, sorted: seq<Community>, result: seq<Community>)
    requires RootsDecide(nodes, edges, roots) && GroupedBy(nodes, roots, groups)
    requires ListsAll(groups, unsorted)
    requires multiset(sorted) == multiset(unsorted) && Sorted(sorted, KeyLeq)
    requires Renumbered(sorted, result)
    ensures Canonical(nodes, edges, result)
  {
    var from :| ListsGroups(groups, from, unsorted) && forall r :: r in groups ==> r in from;
    forall k | 0 <= k < |from| ensures ListsRoot(nodes, edges, roots, unsorted[k], from[k]) {
      GroupIsComponent(nodes, edges, roots, groups, from[k], unsorted[k]);
    }
    SortKeepsComponents(nodes, edges, roots, from, unsorted, sorted);
    forall x | x in nodes ensures Listed(result, x) {
      assert Listed(sorted, x);
      var k :| 0 <= k < |sorted| && x in sorted[k].members;
      assert x in result[k].members;
    }
    forall k, l | 0 <= k < l < |result| ensures result[k].members[0] < result[l].members[0] {
      assert Key(sorted[k]) < Key(sorted[l]);
    }
  }

  ghost predicate Renumbered(sorted: seq<Community>, result: seq<Community>) {
    |result| == |sorted| && forall k :: 0 <= k < |sorted| ==> result[k] == Community(k, sorted[k].members)
  }

  /** Lines 79-82. */
  method Renumber(sorted: seq<Community>) returns (result: seq<Community>)
    ensures Renumbered(sorted, result)
  {
    result := sorted;
    for i := 0 to |result|
      invariant |result| == |sorted|
      invariant forall k :: 0 <= k < i ==> result[k] == Community(k, sorted[k].members)
      invariant forall k :: i <= k < |sorted| ==> result[k] == sorted[k]
    {
      result := result[i := result[i].(id := i)];
    }
  }

  /** Community `c` is the component whose nodes have root `r`. */
  ghost predicate ListsRoot(nodes: seq<int>, edges: seq<Edge>, roots: map<int, int>, c: Community, r: int) {
    && Sorted(c.members, IntLeq)
    && IsComponent(nodes, edges, c.members)
    && Key(c) in roots && roots[Key(c)] == r
    && forall x :: x in nodes && x in roots && roots[x] == r ==> x in c.members
  }

  lemma SortKeepsComponents(nodes: seq<int>, edges: seq<Edge>, roots: map<int, int>,
                            from: seq<int>, unsorted: seq<Community>, sorted: seq<Community>)
    requires |unsorted| == |from| && forall k, l :: 0 <= k < l < |from| ==> from[k] != from[l]
    requires forall k :: 0 <= k < |from| ==> ListsRoot(nodes, edges, roots, unsorted[k], from[k])
    requires forall x :: x in nodes ==> x in roots && roots[x] in from
    requires multiset(sorted) == multiset(unsorted) && Sorted(sorted, KeyLeq)
    ensures forall k :: 0 <= k < |sorted| ==>
              Sorted(sorted[k].members, IntLeq) && IsComponent(nodes, edges, sorted[k].members)
    ensures forall k, l :: 0 <= k < l < |sorted| ==> Key(sorted[k]) < Key(sorted[l])
    ensures forall x :: x in nodes ==> Listed(sorted, x)
  {
    forall k | 0 <= k < |sorted|
      ensures Sorted(sorted[k].members, IntLeq) && IsComponent(nodes, edges, sorted[k].members)
    {
      assert sorted[k] in multiset(unsorted);
      var l :| 0 <= l < |unsorted| && unsorted[l] == sorted[k];
      assert ListsRoot(nodes, edges, roots, unsorted[l], from[l]);
    }
    forall i, j | 0 <= i < j < |unsorted| ensures Key(unsorted[i]) != Key(unsorted[j]) {
      assert ListsRoot(nodes, edges, roots, unsorted[i], from[i]);
      assert ListsRoot(nodes, edges, roots, unsorted[j], from[j]);
    }
    forall k, l | 0 <= k < l < |sorted| ensures Key(sorted[k]) < Key(sorted[l]) {
      DistinctKeysStrict(unsorted, sorted, k, l);
    }
    forall x | x in nodes ensures Listed(sorted, x) {
      var k :| 0 <= k < |from| && from[k] == roots[x];
      assert ListsRoot(nodes, edges, roots, unsorted[k], from[k]);
      assert unsorted[k] in multiset(unsorted);
      assert unsorted[k] in multiset(sorted);
      var k' :| 0 <= k' < |sorted| && sorted[k'] == unsorted[k];
    }
  }

  /** Sorting by distinct keys leaves them strictly increasing. */
  lemma DistinctKeysStrict(unsorted: seq<Community>, sorted: seq<Community>, k: int, l: int)
    requires forall i, j :: 0 <= i < j < |unsorted| ==> Key(unsorted[i]) != Key(unsorted[j])
    requires multiset(sorted) == multiset(unsorted) && Sorted(sorted, KeyLeq)
    requires 0 <= k < l < |sorted|
    ensures Key(sorted[k]) < Key(sorted[l])
  {
    assert sorted[k] in multiset(unsorted) && sorted[l] in multiset(unsorted);
    if sorted[k] == sorted[l] {
      RepeatCountsTwice(sorted, k, l);
    }
    DistinctCountOnce(unsorted, sorted[k]);
  }

  lemma RepeatCountsTwice<T>(s: seq<T>, k: int, l: int)
    requires 0 <= k < l < |s| && s[k] == s[l]
    ensures multiset(s)[s[k]] >= 2
  {
    assert s == s[..k] + [s[k]] + s[k + 1..l] + [s[l]] + s[l + 1..];
  }

  lemma DistinctCountOnce<T>(s: seq<T>, x: T)
    requires forall i, j :: 0 <= i < j < |s| ==> s[i] != s[j]
    ensures multiset(s)[x] <= 1
  {
    if x in s {
      var i :| 0 <= i < |s| && s[i] == x;
      assert s == s[..i] + [x] + s[i + 1..];
      assert x !in s[..i] && x !in s[i + 1..];
    }
  }

  // ---- Consequences of the canonical form ----

  /** Two nodes share a community exactly when an undirected path of edges joins them. */
  lemma SameCommunityIffConnected(nodes: seq<int>, edges: seq<Edge>, result: seq<Community>, a: int, b: int)
    requires Canonical(nodes, edges, result) && a in nodes && b in nodes
    ensures (exists k :: 0 <= k < |result| && a in result[k].members && b in result[k].members) <==> Connected(edges, a, b)
  {
    forall k | 0 <= k < |result| && a in result[k].members
      ensures b in result[k].members <==> Connected(edges, a, b)
    {
      var m := result[k].members;
      assert IsComponent(nodes, edges, m);
      assert a in multiset(m) && (b in m <==> b in multiset(m)) && b in multiset(nodes);
      if Connected(edges, a, b) { ConnectedTrans(edges, m[0], a, b); }
      if Connected(edges, m[0], b) { ConnectedSym(edges, m[0], a); ConnectedTrans(edges, a, m[0], b); }
    }
  }

  /** Each occurrence of a node is listed once, in one community only. */
  lemma EachNodeInOneCommunity(nodes: seq<int>, edges: seq<Edge>, result: seq<Community>, k: int, l: int, x: int)
    requires Canonical(nodes, edges, result) && 0 <= k < |result| && 0 <= l < |result|
    requires x in result[k].members && x in result[l].members
    ensures k == l && multiset(result[k].members)[x] == multiset(nodes)[x]
  {
    var m, m' := result[k].members, result[l].members;
    assert IsComponent(nodes, edges, m) && IsComponent(nodes, edges, m');
    assert x in multiset(m) && x in multiset(m') && m[0] in multiset(m) && m'[0] in multiset(m');
    ConnectedSym(edges, m[0], x);
    ConnectedSym(edges, m'[0], x);
    ConnectedTrans(edges, m[0], x, m'[0]);
    ConnectedTrans(edges, m'[0], x, m[0]);
    LeastIsFirst(nodes, edges, result, k, m'[0]);
    LeastIsFirst(nodes, edges, result, l, m[0]);
  }

  lemma LeastIsFirst(nodes: seq<int>, edges: seq<Edge>, result: seq<Community>, k: int, x: int)
    requires Canonical(nodes, edges, result) && 0 <= k < |result|
    requires x in nodes && Connected(edges, result[k].members[0], x)
    ensures result[k].members[0] <= x
  {
    var m := result[k].members;
    assert IsComponent(nodes, edges, m) && x in multiset(nodes);
    assert x in multiset(m);
    var i :| 0 <= i < |m| && m[i] == x;
    assert i == 0 || IntLeq(m[0], m[i]);
  }

  ghost function Firsts(result: seq<Community>): (firsts: seq<int>)
    requires forall k :: 0 <= k < |result| ==> result[k].members != []
    ensures |firsts| == |result| && forall k :: 0 <= k < |result| ==> firsts[k] == result[k].members[0]
  {
    seq(|result|, k requires 0 <= k < |result| => result[k].members[0])
  }

  lemma {:induction false} StrictlyIncreasingUnique(a: seq<int>, b: seq<int>)
    requires forall i, j :: 0 <= i < j < |a| ==> a[i] < a[j]
    requires forall i, j :: 0 <= i < j < |b| ==> b[i] < b[j]
    requires forall x :: x in a <==> x in b
    ensures a == b
  {
    assert a != [] ==> a[0] in a;
    assert b != [] ==> b[0] in b;
    if a != [] {
      assert a[0] in b && b[0] in a;
      assert forall x :: x in a[1..] <==> x in a && x != a[0];
      assert forall x :: x in b[1..] <==> x in b && x != b[0];
      StrictlyIncreasingUnique(a[1..], b[1..]);
      assert a == [a[0]] + a[1..] && b == [b[0]] + b[1..];
    }
  }

  lemma FirstsAgree(nodes: seq<int>, edges: seq<Edge>, result: seq<Community>,
                    nodes': seq<int>, edges': seq<Edge>, result': seq<Community>, k: int)
    requires Canonical(nodes, edges, result) && Canonical(nodes', edges', result')
    requires multiset(nodes) == multiset(nodes') && SameConnectivity(edges, edges')
    requires 0 <= k < |result|
    ensures exists l :: 0 <= l < |result'| && result'[l].members[0] == result[k].members[0]
  {
    var m := result[k].members;
    FirstIsNode(nodes, edges, m);
    assert m[0] in multiset(nodes) && m[0] in multiset(nodes') && m[0] in nodes';
    assert Listed(result', m[0]);
    var l :| 0 <= l < |result'| && m[0] in result'[l].members;
    var m' := result'[l].members;
    FirstIsNode(nodes', edges', m');
    assert m'[0] in multiset(nodes') && m'[0] in multiset(nodes) && m'[0] in nodes;
    assert m[0] in multiset(m') && Connected(edges', m'[0], m[0]);
    LeastIsFirst(nodes', edges', result', l, m[0]);
    ConnectedSym(edges', m'[0], m[0]);
    LeastIsFirst(nodes, edges, result, k, m'[0]);
  }

  lemma FirstIsNode(nodes: seq<int>, edges: seq<Edge>, m: seq<int>)
    requires IsComponent(nodes, edges, m)
    ensures m[0] in nodes
  {
    assert m[0] in multiset(m);
    assert forall x :: multiset(m)[x] <= multiset(nodes)[x];
  }

  ghost predicate SameConnectivity(edges: seq<Edge>, edges': seq<Edge>) {
    forall x, y :: Connected(edges, x, y) <==> Connected(edges', x, y)
  }

  lemma FirstsIncluded(nodes: seq<int>, edges: seq<Edge>, result: seq<Community>,
                       nodes': seq<int>, edges': seq<Edge>, result': seq<Community>)
    requires Canonical(nodes, edges, result) && Canonical(nodes', edges', result')
    requires multiset(nodes) == multiset(nodes') && SameConnectivity(edges, edges')
    ensures forall x :: x in Firsts(result) ==> x in Firsts(result')
  {
    var a, b := Firsts(result), Firsts(result');
    forall x | x in a ensures x in b {
      var k :| 0 <= k < |a| && a[k] == x;
      FirstsAgree(nodes, edges, result, nodes', edges', result', k);
      var l :| 0 <= l < |result'| && result'[l].members[0] == x;
      assert b[l] == x;
    }
  }

  lemma AdjacencyDecides(edges: seq<Edge>, edges': seq<Edge>)
    requires forall x, y :: Adjacent(edges, x, y) <==> Adjacent(edges', x, y)
    ensures SameConnectivity(edges, edges')
  {
    forall x, y ensures Connected(edges, x, y) <==> Connected(edges', x, y) {
      if Connected(edges, x, y) { ConnectedByAdjacency(edges, edges', x, y); }
      if Connected(edges', x, y) { ConnectedByAdjacency(edges', edges, x, y); }
    }
  }

  lemma MembersAgree(nodes: seq<int>, edges: seq<Edge>, m: seq<int>, nodes': seq<int>, edges': seq<Edge>, m': seq<int>)
    requires IsComponent(nodes, edges, m) && IsComponent(nodes', edges', m') && m[0] == m'[0]
    requires Sorted(m, IntLeq) && Sorted(m', IntLeq)
    requires multiset(nodes) == multiset(nodes') && SameConnectivity(edges, edges')
    ensures m == m'
  {
    assert multiset(m) == multiset(m');
    SortedUnique(m, m', IntLeq);
  }

  /** The listing is fixed by the nodes and by who is adjacent to whom: reordering or reversing edges,
      repeating them, reordering nodes, or another map iteration order all give the same result. */
  lemma CanonicalUnique(nodes: seq<int>, edges: seq<Edge>, result: seq<Community>,
                        nodes': seq<int>, edges': seq<Edge>, result': seq<Community>)
    requires Canonical(nodes, edges, result) && Canonical(nodes', edges', result')
    requires multiset(nodes) == multiset(nodes')
    requires forall x, y :: Adjacent(edges, x, y) <==> Adjacent(edges', x, y)
    ensures result == result'
  {
    AdjacencyDecides(edges, edges');
    FirstsIncluded(nodes, edges, result, nodes', edges', result');
    FirstsIncluded(nodes', edges', result', nodes, edges, result);
    StrictlyIncreasingUnique(Firsts(result), Firsts(result'));
    forall k | 0 <= k < |result| ensures result[k] == result'[k] {
      assert Firsts(result)[k] == Firsts(result')[k];
      MembersAgree(nodes, edges, result[k].members, nodes', edges', result'[k].members);
    }
  }

  /** The same edges in another order, with any of them reversed or repeated, give the same listing. */
  lemma EdgeDirectionAndOrderIrrelevant(nodes: seq<int>, edges: seq<Edge>, edges': seq<Edge>, result: seq<Community>, result': seq<Community>)
    requires Canonical(nodes, edges, result) && Canonical(nodes, edges', result')
    requires forall e :: e in edges ==> e in edges' || Edge(e.to, e.from) in edges'
    requires forall e :: e in edges' ==> e in edges || Edge(e.to, e.from) in edges
    ensures result == result'
  {
    forall x, y ensures Adjacent(edges, x, y) <==> Adjacent(edges', x, y) {
      assert Edge(x, y) in edges ==> Adjacent(edges', x, y);
      assert Edge(y, x) in edges ==> Adjacent(edges', x, y);
      assert Edge(x, y) in edges' ==> Adjacent(edges, x, y);
      assert Edge(y, x) in edges' ==> Adjacent(edges, x, y);
    }
    CanonicalUnique(nodes, edges, result, nodes, edges', result');
  }
}
