/** Jaro and Jaro-Winkler similarity (crates/codegraph/src/dedup.rs), with f64 scores as reals. */
module JaroSimilarity {

  // ---- The matching, as a declarative object ----

  function MatchDistance(len1: nat, len2: nat): nat {
    var half := (if len1 > len2 then len1 else len2) / 2;
    if half == 0 then 0 else half - 1
  }

  /** Equal characters no further apart than the match distance. */
  predicate Eligible(s1: string, s2: string, i: nat, j: nat)
    requires i < |s1|
  {
    j < |s2| && s1[i] == s2[j] && i - MatchDistance(|s1|, |s2|) <= j <= i + MatchDistance(|s1|, |s2|)
  }

  /** The window, position by position: a pair is in it when it is at the same place, or when twice one
      more than its distance fits into one of the strings. */
  lemma WindowWidth(s1: string, s2: string, i: nat, j: nat)
    requires i < |s1| && j < |s2|
    ensures var far := if i < j then j - i else i - j;
            Eligible(s1, s2, i, j) <==> s1[i] == s2[j] && (i == j || 2 * (far + 1) <= |s1| || 2 * (far + 1) <= |s2|)
  {
  }

  const FREE: int := -1

  /** `p[i]` is the position of `s2` matched with position `i` of `s1`, or FREE. The pairing is a
      matching of eligible positions, and it is stable: an eligible pair is passed over only when one
      of its ends has an earlier partner. Nothing here prefers `s1` to `s2`. */
  ghost predicate StableTo(s1: string, s2: string, p: seq<int>) {
    && |p| <= |s1|
    && (forall i :: 0 <= i < |p| && p[i] != FREE ==> 0 <= p[i] && Eligible(s1, s2, i, p[i]))
    && (forall i, k :: 0 <= i < k < |p| && p[i] != FREE ==> p[i] != p[k])
    && (forall i, j {:trigger Eligible(s1, s2, i, j)} :: 0 <= i < |p| && 0 <= j && Eligible(s1, s2, i, j) ==>
          0 <= p[i] <= j || EarlierTaken(p, i, j))
  }

  ghost predicate EarlierTaken(p: seq<int>, i: int, j: int)
    requires 0 <= i <= |p|
  {
    exists k :: 0 <= k < i && p[k] == j
  }

  ghost predicate Stable(s1: string, s2: string, p: seq<int>) {
    |p| == |s1| && StableTo(s1, s2, p)
  }

  /** The first position where two stable pairings could differ already agrees. */
  lemma NextPartnerForced(s1: string, s2: string, p: seq<int>, q: seq<int>, i: nat)
    requires Stable(s1, s2, p) && Stable(s1, s2, q)
    requires i < |s1| && forall k :: 0 <= k < i ==> p[k] == q[k]
    requires p[i] != FREE
    ensures q[i] != FREE && q[i] <= p[i]
  {
    var j := p[i];
    assert Eligible(s1, s2, i, j);
    forall k | 0 <= k < i ensures q[k] != j {
      assert p[k] == q[k];
    }
  }

  /** There is only one stable pairing. */
  lemma {:induction false} StableUnique(s1: string, s2: string, p: seq<int>, q: seq<int>, n: nat)
    requires Stable(s1, s2, p) && Stable(s1, s2, q) && n <= |s1|
    ensures forall k :: 0 <= k < n ==> p[k] == q[k]
  {
    if n > 0 {
      StableUnique(s1, s2, p, q, n - 1);
      if p[n - 1] != FREE { NextPartnerForced(s1, s2, p, q, n - 1); }
      if q[n - 1] != FREE { NextPartnerForced(s1, s2, q, p, n - 1); }
    }
  }

  /** The least position of `s2` that is eligible for `i` and untouched by `p`, or FREE. */
  ghost predicate NextFree(s1: string, s2: string, p: seq<int>, i: nat, j: int)
    requires i < |s1|
  {
    && (j != FREE ==> 0 <= j && Eligible(s1, s2, i, j) && j !in p)
    && (forall l {:trigger Eligible(s1, s2, i, l)} :: 0 <= l && Eligible(s1, s2, i, l) && (j == FREE || l < j) ==> l in p)
  }

  lemma GreedyStepStable(s1: string, s2: string, p: seq<int>, j: int)
    requires StableTo(s1, s2, p) && |p| < |s1| && NextFree(s1, s2, p, |p|, j)
    ensures StableTo(s1, s2, p + [j])
  {
    var q := p + [j];
    forall i, l | 0 <= i < |q| && 0 <= l && Eligible(s1, s2, i, l)
      ensures 0 <= q[i] <= l || EarlierTaken(q, i, l)
    {
      if i < |p| {
        if EarlierTaken(p, i, l) {
          var k :| 0 <= k < i && p[k] == l;
          assert q[k] == l;
        }
      } else if !(0 <= j <= l) {
        assert l in p;
        var k :| 0 <= k < |p| && p[k] == l;
        assert q[k] == l;
      }
    }
  }

  lemma {:induction false} NextFreeExists(s1: string, s2: string, p: seq<int>, i: nat, n: nat)
    requires i < |s1| && n <= |s2|
    requires forall l {:trigger Eligible(s1, s2, i, l)} :: 0 <= l < n && Eligible(s1, s2, i, l) ==> l in p
    ensures exists j :: NextFree(s1, s2, p, i, j)
    decreases |s2| - n
  {
    if n == |s2| {
      assert NextFree(s1, s2, p, i, FREE);
    } else if Eligible(s1, s2, i, n) && n !in p {
      assert NextFree(s1, s2, p, i, n);
    } else {
      NextFreeExists(s1, s2, p, i, n + 1);
    }
  }

  lemma {:induction false} StablePrefixExists(s1: string, s2: string, n: nat)
    requires n <= |s1|
    ensures exists p :: |p| == n && StableTo(s1, s2, p)
  {
    if n == 0 {
      assert StableTo(s1, s2, []);
    } else {
      StablePrefixExists(s1, s2, n - 1);
      var p :| |p| == n - 1 && StableTo(s1, s2, p);
      NextFreeExists(s1, s2, p, n - 1, 0);
      var j :| NextFree(s1, s2, p, n - 1, j);
      GreedyStepStable(s1, s2, p, j);
      assert |p + [j]| == n;
    }
  }

  /** The stable pairing. */
  ghost function Pairing(s1: string, s2: string): (p: seq<int>)
    ensures Stable(s1, s2, p)
  {
    StablePrefixExists(s1, s2, |s1|);
    var p :| |p| == |s1| && StableTo(s1, s2, p);
    p
  }

  lemma PairingUnique(s1: string, s2: string, p: seq<int>)
    requires Stable(s1, s2, p)
    ensures p == Pairing(s1, s2)
  {
    StableUnique(s1, s2, p, Pairing(s1, s2), |s1|);
  }

  // ---- Swapping the strings ----

  ghost predicate IsInverse(p: seq<int>, q: seq<int>) {
    && (forall i :: 0 <= i < |p| && p[i] != FREE ==> 0 <= p[i] < |q| && q[p[i]] == i)
    && (forall j :: 0 <= j < |q| && q[j] != FREE ==> 0 <= q[j] < |p| && p[q[j]] == j)
  }

  /** Read from the other side, the greedy pairing is again the greedy pairing. */
  lemma InverseIsPairing(s1: string, s2: string, q: seq<int>)
    requires |q| == |s2| && IsInverse(Pairing(s1, s2), q)
    ensures q == Pairing(s2, s1)
  {
    var p := Pairing(s1, s2);
    forall j, i | 0 <= j < |q| && 0 <= i && Eligible(s2, s1, j, i)
      ensures 0 <= q[j] <= i || EarlierTaken(q, j, i)
    {
      assert Eligible(s1, s2, i, j);
      if 0 <= p[i] <= j {
        assert q[p[i]] == i;
      } else {
        var k :| 0 <= k < i && p[k] == j;
        assert q[p[k]] == k;
      }
    }
    forall j | 0 <= j < |q| && q[j] != FREE ensures Eligible(s2, s1, j, q[j]) {
      assert Eligible(s1, s2, q[j], p[q[j]]);
    }
    PairingUnique(s2, s1, q);
  }

  ghost function Inverse(p: seq<int>, n: nat): (q: seq<int>)
    requires forall i :: 0 <= i < |p| && p[i] != FREE ==> 0 <= p[i] < n
    requires forall i, k :: 0 <= i < k < |p| && p[i] != FREE ==> p[i] != p[k]
    ensures |q| == n && IsInverse(p, q)
  {
    seq(n, j => if EarlierTaken(p, |p|, j) then var k :| 0 <= k < |p| && p[k] == j; k else FREE)
  }

  lemma PairingSwaps(s1: string, s2: string)
    ensures IsInverse(Pairing(s1, s2), Pairing(s2, s1))
  {
    var p := Pairing(s1, s2);
    assert forall i :: 0 <= i < |p| && p[i] != FREE ==> Eligible(s1, s2, i, p[i]);
    InverseIsPairing(s1, s2, Inverse(p, |s2|));
  }

  // ---- The score ----

  /** The flagged characters of `s`, in order. */
  function Select(s: string, flags: seq<bool>): (r: string)
    requires |s| == |flags|
  {
    if s == [] then ""
    else Select(s[..|s| - 1], flags[..|s| - 1]) + (if flags[|s| - 1] then [s[|s| - 1]] else "")
  }

  /** Positions at which two strings of one length differ. */
  function Mismatches(a: string, b: string): (n: nat)
    requires |a| == |b|
    ensures n <= |a|
  {
    if a == [] then 0
    else Mismatches(a[..|a| - 1], b[..|b| - 1]) + (if a[|a| - 1] != b[|b| - 1] then 1 else 0)
  }

  ghost function Flags1(p: seq<int>): (f: seq<bool>) {
    seq(|p|, i requires 0 <= i < |p| => p[i] != FREE)
  }

  ghost function Flags2(p: seq<int>, n: nat): (f: seq<bool>) {
    seq(n, j => j in p)
  }

  /** The matched characters of each string, in order. */
  ghost function Matched1(s1: string, s2: string): string {
    Select(s1, Flags1(Pairing(s1, s2)))
  }

  ghost function Matched2(s1: string, s2: string): string {
    Select(s2, Flags2(Pairing(s1, s2), |s2|))
  }

  lemma {:induction false} SelectAppendsFlag(s: string, flags: seq<bool>, j: nat)
    requires |s| == |flags| && j < |s| && !flags[j]
    ensures multiset(Select(s, flags[j := true])) == multiset(Select(s, flags)) + multiset{s[j]}
  {
    var n := |s| - 1;
    if j < n {
      SelectAppendsFlag(s[..n], flags[..n], j);
      assert flags[j := true][..n] == flags[..n][j := true];
    } else {
      assert flags[j := true][..n] == flags[..n];
    }
  }

  lemma {:induction false} SelectNone(s: string, flags: seq<bool>)
    requires |s| == |flags| && forall i :: 0 <= i < |s| ==> !flags[i]
    ensures Select(s, flags) == ""
  {
    if s != [] { SelectNone(s[..|s| - 1], flags[..|s| - 1]); }
  }

  lemma {:induction false} SelectAll(s: string, flags: seq<bool>)
    requires |s| == |flags|
    ensures |Select(s, flags)| <= |s|
    ensures |Select(s, flags)| == |s| ==> Select(s, flags) == s
  {
    if s != [] {
      SelectAll(s[..|s| - 1], flags[..|s| - 1]);
      assert s == s[..|s| - 1] + [s[|s| - 1]];
    }
  }

  /** Matching pairs off equal characters, so both sides select the same characters, in some order. */
  lemma {:induction false} SelectionsArePermutations(s1: string, s2: string, p: seq<int>)
    requires StableTo(s1, s2, p)
    ensures multiset(Select(s1[..|p|], Flags1(p))) == multiset(Select(s2, Flags2(p, |s2|)))
  {
    if p == [] {
      SelectNone(s2, Flags2(p, |s2|));
    } else {
      var n := |p| - 1;
      StablePrefix(s1, s2, p, n);
      SelectionsArePermutations(s1, s2, p[..n]);
      SelectOneMore1(s1, p);
      SelectOneMore2(s1, s2, p);
    }
  }

  lemma SelectOneMore1(s1: string, p: seq<int>)
    requires 0 < |p| <= |s1|
    ensures var n := |p| - 1;
            Select(s1[..|p|], Flags1(p)) == Select(s1[..n], Flags1(p[..n])) + if p[n] != FREE then [s1[n]] else ""
  {
    var n := |p| - 1;
    assert s1[..|p|][..n] == s1[..n];
    assert Flags1(p)[..n] == Flags1(p[..n]);
  }

  lemma SelectOneMore2(s1: string, s2: string, p: seq<int>)
    requires StableTo(s1, s2, p) && p != []
    ensures var n := |p| - 1;
            multiset(Select(s2, Flags2(p, |s2|)))
            == multiset(Select(s2, Flags2(p[..n], |s2|))) + if p[n] != FREE then multiset{s1[n]} else multiset{}
  {
    var n := |p| - 1;
    var q, j := p[..n], p[n];
    assert p == q + [j];
    if j == FREE {
      assert Flags2(p, |s2|) == Flags2(q, |s2|);
    } else {
      assert Eligible(s1, s2, n, j);
      assert Flags2(p, |s2|) == Flags2(q, |s2|)[j := true];
      SelectAppendsFlag(s2, Flags2(q, |s2|), j);
    }
  }

  lemma StablePrefix(s1: string, s2: string, p: seq<int>, n: nat)
    requires StableTo(s1, s2, p) && n <= |p|
    ensures StableTo(s1, s2, p[..n])
  {
    var q := p[..n];
    forall i, j | 0 <= i < |q| && 0 <= j && Eligible(s1, s2, i, j)
      ensures 0 <= q[i] <= j || EarlierTaken(q, i, j)
    {
      if !(0 <= p[i] <= j) {
        var k :| 0 <= k < i && p[k] == j;
        assert q[k] == j;
      }
    }
  }

  lemma MatchedPermutation(s1: string, s2: string)
    ensures multiset(Matched1(s1, s2)) == multiset(Matched2(s1, s2))
    ensures |Matched1(s1, s2)| == |Matched2(s1, s2)|
  {
    var p := Pairing(s1, s2);
    SelectionsArePermutations(s1, s2, p);
    assert s1[..|p|] == s1;
    assert |multiset(Matched1(s1, s2))| == |multiset(Matched2(s1, s2))|;
  }

  /** Line 69, from the number of matches and the number of mismatched matches. */
  function Score(matches: nat, mismatches: nat, len1: nat, len2: nat): real
    requires matches > 0 && len1 > 0 && len2 > 0
  {
    var m := matches as real;
    var t := (mismatches / 2) as real;
    (m / len1 as real + m / len2 as real + (m - t) / m) / 3.0
  }

  /** The Jaro similarity of two strings. */
  ghost function Jaro(s1: string, s2: string): real {
    if s1 == s2 then 1.0
    else
      var a, b := Matched1(s1, s2), Matched2(s1, s2);
      MatchedPermutation(s1, s2);
      SelectAll(s1, Flags1(Pairing(s1, s2)));
      SelectAll(s2, Flags2(Pairing(s1, s2), |s2|));
      if a == "" then 0.0 else Score(|a|, Mismatches(a, b), |s1|, |s2|)
  }

  // ---- What the score is ----

  /** The places at which two strings of one length differ. */
  ghost function Differing(a: string, b: string): set<int>
    requires |a| == |b|
  {
    set i | 0 <= i < |a| && a[i] != b[i]
  }

  lemma OneMorePlace(a: string, b: string)
    requires |a| == |b| > 0
    ensures var n := |a| - 1; |Differing(a, b)| == |Differing(a[..n], b[..n])| + if a[n] != b[n] then 1 else 0
  {
    var n := |a| - 1;
    var before := Differing(a[..n], b[..n]);
    assert Differing(a, b) == if a[n] != b[n] then before + {n} else before;
  }

  lemma {:induction false} MismatchesAre(a: string, b: string)
    requires |a| == |b|
    ensures Mismatches(a, b) == |Differing(a, b)|
  {
    if a == "" {
      assert Differing(a, b) == {};
    } else {
      MismatchesAre(a[..|a| - 1], b[..|b| - 1]);
      OneMorePlace(a, b);
    }
  }

  /** `score` is the mean of the share of one string matched, the share of the other matched, and the share
      of matches in order, two mismatches making one transposition; written without a division. */
  ghost predicate IsMean(score: real, m: nat, k: nat, len1: nat, len2: nat) {
    var x, y, z, t := m as real, len1 as real, len2 as real, (k / 2) as real;
    3.0 * (x * y * z) * score == x * x * z + x * x * y + (x - t) * (y * z)
  }

  lemma ScoreIsMean(m: nat, k: nat, len1: nat, len2: nat)
    requires 0 < m && 0 < len1 && 0 < len2
    ensures IsMean(Score(m, k, len1, len2), m, k, len1, len2)
  {
    var x, y, z, t := m as real, len1 as real, len2 as real, (k / 2) as real;
    var a, b, c := x / y, x / z, (x - t) / x;
    assert a * y == x && b * z == x && c * x == x - t;
    assert (x * y * z) * a == (x * z) * (a * y);
    assert (x * y * z) * b == (x * y) * (b * z);
    assert (x * y * z) * c == (y * z) * (c * x);
    Distribute(x * y * z, a, b, c);
  }

  lemma Distribute(w: real, a: real, b: real, c: real)
    ensures 3.0 * w * ((a + b + c) / 3.0) == w * a + w * b + w * c
  {
  }

  lemma JaroIsScore(s1: string, s2: string)
    requires s1 != s2 && Matched1(s1, s2) != ""
    ensures |Matched1(s1, s2)| == |Matched2(s1, s2)| && |s1| > 0 && |s2| > 0
    ensures Jaro(s1, s2) == Score(|Matched1(s1, s2)|, Mismatches(Matched1(s1, s2), Matched2(s1, s2)), |s1|, |s2|)
  {
    MatchedPermutation(s1, s2);
    SelectAll(s1, Flags1(Pairing(s1, s2)));
    SelectAll(s2, Flags2(Pairing(s1, s2), |s2|));
  }

  /** So the similarity of different strings is that mean, over their matched characters taken in order. */
  lemma JaroIsMean(s1: string, s2: string, m: nat, k: nat)
    requires s1 != s2 && Matched1(s1, s2) != ""
    requires m == |Matched1(s1, s2)| == |Matched2(s1, s2)|
    requires k == |Differing(Matched1(s1, s2), Matched2(s1, s2))|
    ensures IsMean(Jaro(s1, s2), m, k, |s1|, |s2|)
  {
    JaroIsScore(s1, s2);
    MismatchesAre(Matched1(s1, s2), Matched2(s1, s2));
    ScoreIsMean(m, k, |s1|, |s2|);
  }

  /** Different strings score zero exactly when they share no character within the window. */
  lemma JaroZeroIff(s1: string, s2: string)
    requires s1 != s2
    ensures Jaro(s1, s2) == 0.0
            <==> forall i, j :: 0 <= i < |s1| && 0 <= j < |s2| && s1[i] == s2[j] ==>
                   var far := if i < j then j - i else i - j;
                   i != j && 2 * (far + 1) > |s1| && 2 * (far + 1) > |s2|
  {
    var p := Pairing(s1, s2);
    var a := Matched1(s1, s2);
    NothingMatchedIff(s1, s2);
    JaroPositive(s1, s2);
    forall i, j | 0 <= i < |s1| && 0 <= j < |s2|
      ensures Eligible(s1, s2, i, j) <==> s1[i] == s2[j] && !(var far := if i < j then j - i else i - j;
                                                              i != j && 2 * (far + 1) > |s1| && 2 * (far + 1) > |s2|)
    {
      WindowWidth(s1, s2, i, j);
    }
  }

  lemma JaroPositive(s1: string, s2: string)
    requires s1 != s2
    ensures Jaro(s1, s2) == 0.0 <==> Matched1(s1, s2) == ""
  {
    var a, b := Matched1(s1, s2), Matched2(s1, s2);
    MatchedPermutation(s1, s2);
    SelectAll(s1, Flags1(Pairing(s1, s2)));
    SelectAll(s2, Flags2(Pairing(s1, s2), |s2|));
    if a != "" { ScoreRange(|a|, Mismatches(a, b), |s1|, |s2|); }
  }

  lemma NothingMatchedIff(s1: string, s2: string)
    ensures Matched1(s1, s2) == ""
            <==> forall i, j :: 0 <= i < |s1| && 0 <= j < |s2| ==> !Eligible(s1, s2, i, j)
  {
    var p := Pairing(s1, s2);
    SelectEmptyIff(s1, Flags1(p));
    if i :| 0 <= i < |s1| && p[i] != FREE {
      assert Flags1(p)[i] && Eligible(s1, s2, i, p[i]);
    } else {
      forall i, j | 0 <= i < |s1| && 0 <= j < |s2| ensures !Eligible(s1, s2, i, j) {
        assert !EarlierTaken(p, i, j);
        assert p[i] == FREE;
      }
      assert forall i :: 0 <= i < |s1| ==> !Flags1(p)[i];
    }
  }

  lemma {:induction false} SelectEmptyIff(s: string, flags: seq<bool>)
    requires |s| == |flags|
    ensures Select(s, flags) == "" <==> forall i :: 0 <= i < |s| ==> !flags[i]
  {
    if s != "" {
      var n := |s| - 1;
      SelectEmptyIff(s[..n], flags[..n]);
      assert forall i :: 0 <= i < n ==> flags[..n][i] == flags[i];
    }
  }

  // ---- Symmetry ----

  lemma MatchedSwap(s1: string, s2: string)
    ensures Matched1(s1, s2) == Matched2(s2, s1)
  {
    var p, q := Pairing(s1, s2), Pairing(s2, s1);
    PairingSwaps(s1, s2);
    forall i | 0 <= i < |s1| ensures p[i] != FREE <==> i in q {
      if p[i] != FREE { assert q[p[i]] == i; }
    }
    assert Flags1(p) == Flags2(q, |s1|);
  }

  lemma {:induction false} MismatchesSym(a: string, b: string)
    requires |a| == |b|
    ensures Mismatches(a, b) == Mismatches(b, a)
  {
    if a != [] { MismatchesSym(a[..|a| - 1], b[..|b| - 1]); }
  }

  /** The score does not depend on which string is scanned first. */
  lemma JaroSymmetric(s1: string, s2: string)
    ensures Jaro(s1, s2) == Jaro(s2, s1)
  {
    MatchedSwap(s1, s2);
    MatchedSwap(s2, s1);
    MatchedPermutation(s1, s2);
    MismatchesSym(Matched1(s1, s2), Matched2(s1, s2));
  }

  // ---- Range, and when the score is one ----

  lemma {:induction false} NoMismatch(a: string, b: string)
    requires |a| == |b| && Mismatches(a, b) == 0
    ensures a == b
  {
    if a != [] {
      NoMismatch(a[..|a| - 1], b[..|b| - 1]);
      assert a == a[..|a| - 1] + [a[|a| - 1]] && b == b[..|b| - 1] + [b[|b| - 1]];
    }
  }

  /** Strings differing in exactly one place never hold the same characters. */
  lemma {:induction false} OneMismatchChangesContents(a: string, b: string)
    requires |a| == |b| && Mismatches(a, b) == 1
    ensures multiset(a) != multiset(b)
  {
    var n := |a| - 1;
    var x, y := a[n], b[n];
    assert a == a[..n] + [x] && b == b[..n] + [y];
    if x != y {
      NoMismatch(a[..n], b[..n]);
      assert multiset(a)[x] == multiset(a[..n])[x] + 1;
      assert multiset(b)[x] == multiset(b[..n])[x];
    } else {
      OneMismatchChangesContents(a[..n], b[..n]);
      assert multiset(a[..n]) == multiset(a) - multiset{x};
      assert multiset(b[..n]) == multiset(b) - multiset{x};
    }
  }

  lemma Ratio(m: nat, n: nat)
    requires 0 < m <= n
    ensures 0.0 < m as real / n as real <= 1.0
    ensures m as real / n as real == 1.0 <==> m == n
  {
    var q := m as real / n as real;
    assert q * n as real == m as real;
  }

  lemma ScoreRange(m: nat, k: nat, len1: nat, len2: nat)
    requires 0 < m <= len1 && m <= len2 && k <= m
    ensures 0.0 < Score(m, k, len1, len2) <= 1.0
    ensures Score(m, k, len1, len2) == 1.0 <==> m == len1 == len2 && k <= 1
  {
    Ratio(m, len1);
    Ratio(m, len2);
    var t := k / 2;
    assert 2 * t <= k;
    assert m - t > 0;
    Ratio(m - t, m);
    assert (m - t) as real == m as real - t as real;
  }

  /** Every score lies between 0 and 1, and only equal strings score 1. */
  lemma JaroRange(s1: string, s2: string)
    ensures 0.0 <= Jaro(s1, s2) <= 1.0
    ensures Jaro(s1, s2) == 1.0 <==> s1 == s2
  {
    if s1 != s2 {
      var a, b := Matched1(s1, s2), Matched2(s1, s2);
      MatchedPermutation(s1, s2);
      SelectAll(s1, Flags1(Pairing(s1, s2)));
      SelectAll(s2, Flags2(Pairing(s1, s2), |s2|));
      if a != "" {
        ScoreRange(|a|, Mismatches(a, b), |s1|, |s2|);
        FullMatchMismatches(s1, s2, a, b);
      }
    }
  }

  lemma FullMatchMismatches(s1: string, s2: string, a: string, b: string)
    requires s1 != s2 && |a| == |b| && multiset(a) == multiset(b)
    requires |a| == |s1| ==> a == s1
    requires |b| == |s2| ==> b == s2
    ensures |a| == |s1| == |s2| ==> Mismatches(a, b) > 1
  {
    if |a| == |s1| == |s2| {
      if Mismatches(a, b) == 0 { NoMismatch(a, b); }
      if Mismatches(a, b) == 1 { OneMismatchChangesContents(a, b); }
    }
  }

  // ---- Jaro-Winkler and the merge gate ----

  /** Lines 77-82: the length of the common prefix, counted to four. */
  function CommonPrefix(s1: string, s2: string, limit: nat): (n: nat)
    ensures n <= limit && n <= |s1| && n <= |s2|
    ensures s1[..n] == s2[..n]
    ensures n == limit || n == |s1| || n == |s2| || s1[n] != s2[n]
  {
    if limit == 0 || s1 == [] || s2 == [] || s1[0] != s2[0] then 0
    else
      var n := 1 + CommonPrefix(s1[1..], s2[1..], limit - 1);
      assert s1[..n] == [s1[0]] + s1[1..][..n - 1] && s2[..n] == [s2[0]] + s2[1..][..n - 1];
      n
  }

  ghost function JaroWinkler(s1: string, s2: string): real {
    var j := Jaro(s1, s2);
    j + CommonPrefix(s1, s2, 4) as real * 0.1 * (1.0 - j)
  }

  lemma {:induction false} CommonPrefixSym(s1: string, s2: string, limit: nat)
    ensures CommonPrefix(s1, s2, limit) == CommonPrefix(s2, s1, limit)
  {
    if limit > 0 && s1 != [] && s2 != [] { CommonPrefixSym(s1[1..], s2[1..], limit - 1); }
  }

  /** The prefix bonus only lifts the score toward 1, never past it and never onto it. */
  lemma JaroWinklerRange(s1: string, s2: string)
    ensures Jaro(s1, s2) <= JaroWinkler(s1, s2) <= 1.0
    ensures JaroWinkler(s1, s2) == 1.0 <==> s1 == s2
  {
    JaroRange(s1, s2);
    var j, n := Jaro(s1, s2), CommonPrefix(s1, s2, 4) as real;
    assert 1.0 - JaroWinkler(s1, s2) == (1.0 - j) * (1.0 - n * 0.1);
    assert 1.0 - n * 0.1 >= 0.6;
    assert n * 0.1 * (1.0 - j) >= 0.0;
  }

  /** The bonus is a tenth of what is missing to one for each of the first four places in common. */
  lemma WinklerBonus(s1: string, s2: string, n: nat)
    requires n <= 4 && n <= |s1| && n <= |s2| && s1[..n] == s2[..n]
    requires n == 4 || n == |s1| || n == |s2| || s1[n] != s2[n]
    ensures 10.0 * (JaroWinkler(s1, s2) - Jaro(s1, s2)) == n as real * (1.0 - Jaro(s1, s2))
  {
    var c := CommonPrefix(s1, s2, 4);
    AgreeBelow(s1, s2, n);
    AgreeBelow(s1, s2, c);
  }

  lemma AgreeBelow(s1: string, s2: string, n: nat)
    requires n <= |s1| && n <= |s2| && s1[..n] == s2[..n]
    ensures forall k :: 0 <= k < n ==> s1[k] == s2[k]
  {
    forall k | 0 <= k < n ensures s1[k] == s2[k] {
      assert s1[..n][k] == s1[k] && s2[..n][k] == s2[k];
    }
  }

  const LOW_ENTROPY := ["new", "init", "default", "clone", "drop", "fmt", "eq", "hash", "get", "set", "len",
                        "is_empty", "iter", "next", "into", "from"]

  ghost predicate ShouldMerge(a: string, b: string, threshold: real) {
    a == b || (a !in LOW_ENTROPY && b !in LOW_ENTROPY && JaroWinkler(a, b) >= threshold)
  }

  /** Which names never merge with another, spelled out; all others merge by similarity alone. */
  lemma GateIs(a: string, b: string, threshold: real)
    requires a != b
    ensures var gated := {"new", "init", "default", "clone", "drop", "fmt", "eq", "hash", "get", "set", "len",
                          "is_empty", "iter", "next", "into", "from"};
            ShouldMerge(a, b, threshold) <==> a !in gated && b !in gated && JaroWinkler(a, b) >= threshold
  {
  }

  /** The verdict does not depend on the order of the two names. */
  lemma ShouldMergeSymmetric(a: string, b: string, threshold: real)
    ensures JaroWinkler(a, b) == JaroWinkler(b, a)
    ensures ShouldMerge(a, b, threshold) <==> ShouldMerge(b, a, threshold)
  {
    JaroSymmetric(a, b);
    CommonPrefixSym(a, b, 4);
  }

  /** At threshold 1 only equal names merge; above it nothing else ever does. */
  lemma MergeAtOneIsEquality(a: string, b: string, threshold: real)
    requires threshold >= 1.0
    ensures ShouldMerge(a, b, threshold) <==> a == b
  {
    JaroWinklerRange(a, b);
  }

  // ---- The loops of the source ----

  /** Lines 37-42: the first unflagged equal character in the window of `i`. */
  method FirstFree(s1: string, s2: string, flags2: array<bool>, i: nat, ghost p: seq<int>) returns (partner: int)
    requires i < |s1| && flags2.Length == |s2|
    requires forall j :: 0 <= j < |s2| ==> flags2[j] == (j in p)
    ensures NextFree(s1, s2, p, i, partner)
  {
    var dist := MatchDistance(|s1|, |s2|);
    var start := if i < dist then 0 else i - dist;
    var end := if i + dist + 1 < |s2| then i + dist + 1 else |s2|;
    var j := start;
    while j < end
      invariant start <= j
      invariant forall l {:trigger Eligible(s1, s2, i, l)} :: 0 <= l < j && Eligible(s1, s2, i, l) ==> l in p
    {
      if !flags2[j] && s1[i] == s2[j] {
        return j;
      }
      j := j + 1;
    }
    return FREE;
  }

  /** Lines 37-47: one position of `s1`. */
  method MatchOne(s1: string, s2: string, flags1: array<bool>, flags2: array<bool>, i: nat, ghost p: seq<int>)
    returns (partner: int)
    requires flags1 != flags2 && flags1.Length == |s1| && flags2.Length == |s2|
    requires i == |p| < |s1| && StableTo(s1, s2, p)
    requires flags1[..i] == Flags1(p) && !flags1[i] && flags2[..] == Flags2(p, |s2|)
    modifies flags1, flags2
    ensures StableTo(s1, s2, p + [partner])
    ensures flags1[..i + 1] == Flags1(p + [partner]) && flags2[..] == Flags2(p + [partner], |s2|)
    ensures forall k :: i < k < |s1| ==> flags1[k] == old(flags1[k])
  {
    assert forall j :: 0 <= j < |s2| ==> flags2[j] == flags2[..][j];
    partner := FirstFree(s1, s2, flags2, i, p);
    GreedyStepStable(s1, s2, p, partner);
    FlagsStep(p, partner, |s2|);
    if partner != FREE {
      flags1[i] := true;
      flags2[partner] := true;
    }
    assert flags1[..i + 1] == flags1[..i] + [partner != FREE];
  }

  /** Lines 36-48: the greedy matching over two flag arrays. */
  method MatchFlags(s1: string, s2: string, flags1: array<bool>, flags2: array<bool>) returns (matches: nat)
    requires flags1 != flags2 && flags1.Length == |s1| && flags2.Length == |s2|
    requires forall i :: 0 <= i < |s1| ==> !flags1[i]
    requires forall j :: 0 <= j < |s2| ==> !flags2[j]
    modifies flags1, flags2
    ensures flags1[..] == Flags1(Pairing(s1, s2))
    ensures flags2[..] == Flags2(Pairing(s1, s2), |s2|)
    ensures matches == |Matched1(s1, s2)|
  {
    matches := 0;
    ghost var p: seq<int> := [];
    assert flags2[..] == Flags2(p, |s2|);
    for i := 0 to |s1|
      invariant |p| == i && StableTo(s1, s2, p)
      invariant flags1[..i] == Flags1(p)
      invariant forall k :: i <= k < |s1| ==> !flags1[k]
      invariant flags2[..] == Flags2(p, |s2|)
      invariant matches == |Select(s1[..i], Flags1(p))|
    {
      var partner := MatchOne(s1, s2, flags1, flags2, i, p);
      SelectOneMore1(s1, p + [partner]);
      assert (p + [partner])[..i] == p;
      if partner != FREE {
        matches := matches + 1;
      }
      p := p + [partner];
    }
    assert s1[..|s1|] == s1 && flags1[..|s1|] == flags1[..];
    PairingUnique(s1, s2, p);
  }

  lemma FlagsStep(p: seq<int>, j: int, n: nat)
    requires j == FREE || 0 <= j < n
    ensures Flags1(p + [j]) == Flags1(p) + [j != FREE]
    ensures Flags2(p + [j], n) == if j == FREE then Flags2(p, n) else Flags2(p, n)[j := true]
  {
  }

  lemma {:induction false} SelectPrefix(s: string, flags: seq<bool>, k: nat)
    requires |s| == |flags| && k <= |s|
    ensures Select(s[..k], flags[..k]) <= Select(s, flags)
  {
    if k == |s| {
      assert s[..k] == s && flags[..k] == flags;
    } else {
      var n := |s| - 1;
      SelectPrefix(s[..n], flags[..n], k);
      assert s[..n][..k] == s[..k] && flags[..n][..k] == flags[..k];
    }
  }

  lemma SelectNext(s: string, flags: seq<bool>, k: nat)
    requires |s| == |flags| && k < |s|
    ensures flags[k] ==> Select(s[..k + 1], flags[..k + 1]) == Select(s[..k], flags[..k]) + [s[k]]
    ensures !flags[k] ==> Select(s[..k + 1], flags[..k + 1]) == Select(s[..k], flags[..k])
    ensures Select(s[..k + 1], flags[..k + 1]) <= Select(s, flags)
  {
    assert s[..k + 1][..k] == s[..k] && flags[..k + 1][..k] == flags[..k];
    SelectPrefix(s, flags, k + 1);
  }

  lemma MismatchesNext(a: string, b: string, x: char, y: char)
    requires |a| == |b|
    ensures Mismatches(a + [x], b + [y]) == Mismatches(a, b) + if x != y then 1 else 0
  {
    assert (a + [x])[..|a|] == a && (b + [y])[..|b|] == b;
  }

  /** Lines 53-65: the lockstep scan. The inner `while` has no bound of its own; it stays inside the
      array because both strings have equally many flags. */
  method CountMismatches(s1: string, s2: string, flags1: array<bool>, flags2: array<bool>) returns (mismatches: nat)
    requires flags1.Length == |s1| && flags2.Length == |s2|
    requires |Select(s1, flags1[..])| == |Select(s2, flags2[..])|
    ensures mismatches == Mismatches(Select(s1, flags1[..]), Select(s2, flags2[..]))
  {
    mismatches := 0;
    var k := 0;
    ghost var f1, f2 := flags1[..], flags2[..];
    ghost var a, b := Select(s1, f1), Select(s2, f2);
    for i := 0 to |s1|
      invariant k <= |s2|
      invariant |Select(s1[..i], f1[..i])| == |Select(s2[..k], f2[..k])|
      invariant mismatches == Mismatches(Select(s1[..i], f1[..i]), Select(s2[..k], f2[..k]))
    {
      SelectNext(s1, f1, i);
      if flags1[i] {
        assert flags2[..k] == f2[..k];
        k := SkipUnflagged(s2, flags2, k, |a|);
        assert flags2[..k] == f2[..k];
        SelectNext(s2, f2, k);
        MismatchesNext(Select(s1[..i], f1[..i]), Select(s2[..k], f2[..k]), s1[i], s2[k]);
        if s1[i] != s2[k] { mismatches := mismatches + 1; }
        k := k + 1;
      }
    }
    assert s1[..|s1|] == s1 && f1[..|s1|] == f1;
    SelectPrefix(s2, f2, k);
    assert Select(s2, f2) == Select(s2[..k], f2[..k]);
  }

  /** Lines 58-60: the unguarded scan for the next flag. */
  method SkipUnflagged(s2: string, flags2: array<bool>, from: nat, ghost total: nat) returns (k: nat)
    requires flags2.Length == |s2| && from <= |s2|
    requires |Select(s2[..from], flags2[..from])| < total <= |Select(s2, flags2[..])|
    ensures from <= k < |s2| && flags2[k]
    ensures Select(s2[..k], flags2[..k]) == Select(s2[..from], flags2[..from])
  {
    k := from;
    ghost var f2 := flags2[..];
    StillFlagged(s2, f2, k);
    while !flags2[k]
      invariant from <= k < |s2|
      invariant Select(s2[..k], f2[..k]) == Select(s2[..from], f2[..from])
      decreases |s2| - k
    {
      SelectNext(s2, f2, k);
      k := k + 1;
      StillFlagged(s2, f2, k);
    }
    assert flags2[..k] == f2[..k] && flags2[..from] == f2[..from];
  }

  lemma StillFlagged(s: string, flags: seq<bool>, k: nat)
    requires |s| == |flags| && k <= |s|
    requires |Select(s[..k], flags[..k])| < |Select(s, flags)|
    ensures k < |s|
  {
    assert s[..|s|] == s && flags[..|s|] == flags;
  }

  /** Lines 19-70. */
  method ComputeJaro(s1: string, s2: string) returns (score: real)
    ensures score == Jaro(s1, s2)
  {
    if s1 == s2 {
      return 1.0;
    }
    MatchedPermutation(s1, s2);
    if |s1| == 0 || |s2| == 0 {
      return 0.0;
    }
    var flags1 := new bool[|s1|](_ => false);
    var flags2 := new bool[|s2|](_ => false);
    var matches := MatchFlags(s1, s2, flags1, flags2);
    if matches == 0 {
      return 0.0;
    }
    var mismatches := CountMismatches(s1, s2, flags1, flags2);
    score := Score(matches, mismatches, |s1|, |s2|);
  }

  method ComputeShouldMerge(a: string, b: string, threshold: real) returns (merge: bool)
    ensures merge <==> ShouldMerge(a, b, threshold)
  {
    if a == b {
      return true;
    }
    if a in LOW_ENTROPY || b in LOW_ENTROPY {
      return false;
    }
    var j := ComputeJaro(a, b);
    return j + CommonPrefix(a, b, 4) as real * 0.1 * (1.0 - j) >= threshold;
  }
}
