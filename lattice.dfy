/**
 * The Boolean lattice of engaged sets that the crystal-assembly enumerator walks.
 *
 * An engaged set names the interface clusters (numbered 0 .. n-1) switched on in a candidate
 * assembly. The enumerator starts from the empty set and goes down the lattice one level per
 * engaged cluster, expanding only valid nodes and never generating a superset of a node found
 * invalid. `Traverse` states that walk level by level; the lemmas below state what it finds.
 * Whether an assembly is valid (finite under the crystal's symmetry) is computed on the lattice
 * graph, which is not part of this model: it enters as the predicate `valid`.
 */
module Lattice {

  /** The interface clusters switched on in an assembly (a PowerSet of the cluster indices). */
  type Engaged = set<nat>

  /** Every engaged cluster is one of the `n` interface clusters. */
  ghost predicate InRange(c: Engaged, n: nat)
  {
    forall i :: i in c ==> i < n
  }

  /** Validity is closed under subsets: a sub-assembly of a valid assembly is valid. */
  ghost predicate DownwardClosed(valid: Engaged -> bool)
  {
    forall s: Engaged, t: Engaged {:trigger valid(s), valid(t)} :: s <= t && valid(t) ==> valid(s)
  }

  /** `c` is not a superset of any node recorded as invalid. */
  predicate NotAboveInvalid(c: Engaged, invalid: seq<Engaged>)
  {
    forall j :: 0 <= j < |invalid| ==> !(invalid[j] <= c)
  }

  ghost predicate NoInvalidSubset(c: Engaged, invalid: set<Engaged>)
  {
    forall v :: v in invalid ==> !(v <= c)
  }

  /** The cluster indices below `n`. */
  ghost function Range(n: nat): (r: set<nat>)
    ensures forall i: nat :: i in r <==> i < n
  {
    if n == 0 then {} else Range(n - 1) + {n - 1}
  }

  /** `c` arises from a set in `found` by switching on one more cluster. */
  ghost predicate HasParentIn(c: Engaged, found: set<Engaged>)
  {
    exists i :: i in c && c - {i} in found
  }

  /** Every set of clusters below `n` obtained from a member of `parents` by switching on one more cluster. */
  ghost function Expand(parents: set<Engaged>, n: nat): set<Engaged>
  {
    set c: Engaged | c <= Range(n) && HasParentIn(c, parents)
  }

  /**
   * The children of `p` that are not supersets of a recorded invalid node, trying the clusters
   * from `i` upwards (Assembly.getChildren, which is not part of this model, as its contract
   * in CrystalAssemblies describes it).
   */
  function ChildrenFrom(p: Engaged, n: nat, invalid: seq<Engaged>, i: nat): (r: seq<Engaged>)
    ensures forall c :: c in r ==> NotAboveInvalid(c, invalid)
    ensures forall c :: c in r ==> exists k: nat :: i <= k < n && k !in p && c == p + {k}
    ensures forall k: nat :: i <= k < n && k !in p && NotAboveInvalid(p + {k}, invalid) ==> p + {k} in r
    decreases n - i
  {
    if i >= n then []
    else
      (if i !in p && NotAboveInvalid(p + {i}, invalid) then [p + {i}] else [])
      + ChildrenFrom(p, n, invalid, i + 1)
  }

  /** `c` is `p` with one more of the `n` clusters switched on. */
  ghost predicate ChildOf(c: Engaged, p: Engaged, n: nat)
  {
    exists k: nat :: k < n && k !in p && c == p + {k}
  }

  /** Assembly.getChildren(invalidNodes) for the assembly engaging `p`. */
  function Children(p: Engaged, n: nat, invalid: seq<Engaged>): (r: seq<Engaged>)
    ensures forall c :: c in r <==> ChildOf(c, p, n) && NotAboveInvalid(c, invalid)
  {
    ChildrenFrom(p, n, invalid, 0)
  }

  /** The elements of a list, as a set. */
  ghost function Elems<T>(s: seq<T>): set<T>
  {
    set x | x in s
  }

  /** The members of a list on which `valid` answers `keep`. */
  ghost function Select(xs: seq<Engaged>, valid: Engaged -> bool, keep: bool): set<Engaged>
  {
    set c | c in xs && valid(c) == keep
  }

  lemma SelectAppend(xs: seq<Engaged>, x: Engaged, valid: Engaged -> bool, keep: bool)
    ensures Select(xs + [x], valid, keep) == Select(xs, valid, keep) + (if valid(x) == keep then {x} else {})
  {
  }

  lemma ElemsAppend<T>(xs: seq<T>, x: T)
    ensures Elems(xs + [x]) == Elems(xs) + {x}
  {
  }

  /** One level of the walk: the valid nodes of the level, the invalid ones, and all found so far. */
  datatype Search = Search(level: set<Engaged>, rejected: set<Engaged>, all: set<Engaged>, invalid: set<Engaged>)

  /** The candidates that are not supersets of a node recorded as invalid. */
  ghost function Prune(cands: set<Engaged>, invalid: set<Engaged>): set<Engaged>
  {
    set c | c in cands && NoInvalidSubset(c, invalid)
  }

  /** The members of `cs` on which `valid` answers `keep`. */
  ghost function Split(cs: set<Engaged>, valid: Engaged -> bool, keep: bool): set<Engaged>
  {
    set c | c in cs && valid(c) == keep
  }

  /**
   * One level of the walk: the children of the valid nodes of the previous level that are not
   * supersets of an invalid node found earlier; the valid ones become the next level and join
   * `all`, the invalid ones join `invalid`.
   */
  ghost function Step(s: Search, n: nat, valid: Engaged -> bool): Search
  {
    var pruned := Prune(Expand(s.level, n), s.invalid);
    var lvl := Split(pruned, valid, true);
    var bad := Split(pruned, valid, false);
    Search(lvl, bad, s.all + lvl, s.invalid + bad)
  }

  /** The walk after `k` levels. Level 0 is the empty set, valid by definition. */
  ghost function Traverse(n: nat, valid: Engaged -> bool, k: nat): Search
  {
    if k == 0 then Search({{}}, {}, {{}}, {})
    else Step(Traverse(n, valid, k - 1), n, valid)
  }

  lemma SubsetCard(a: set<nat>, b: set<nat>)
    requires a <= b
    ensures |a| <= |b|
    ensures |a| == |b| ==> a == b
  {
    assert b == a + (b - a);
    assert a * (b - a) == {};
    if |a| == |b| {
      assert |b - a| == 0;
      assert b - a == {};
    }
  }

  lemma ExpandMember(parents: set<Engaged>, n: nat, p: Engaged, i: nat)
    requires p in parents && InRange(p, n) && i < n && i !in p
    ensures p + {i} in Expand(parents, n)
  {
    assert (p + {i}) - {i} == p;
  }

  /** Every expanded set has a parent: itself with one of its clusters switched off. */
  lemma ExpandParent(parents: set<Engaged>, n: nat, c: Engaged) returns (i: nat)
    requires c in Expand(parents, n)
    ensures i in c && i < n && c - {i} in parents && c == (c - {i}) + {i}
  {
    i :| i in c && c - {i} in parents;
  }

  /** The expansion of a single set of clusters below `n` is its children. */
  lemma ExpandOne(p: Engaged, n: nat)
    requires InRange(p, n)
    ensures forall c :: c in Expand({p}, n) <==> ChildOf(c, p, n)
  {
    forall c | c in Expand({p}, n) ensures ChildOf(c, p, n) {
      var i := ExpandParent({p}, n, c);
    }
    forall c | ChildOf(c, p, n) ensures c in Expand({p}, n) {
      var k: nat :| k < n && k !in p && c == p + {k};
      ExpandMember({p}, n, p, k);
    }
  }

  /** Expanding sets of `m` clusters below `n` gives sets of `m + 1` clusters below `n`. */
  lemma ExpandShape(parents: set<Engaged>, n: nat, m: nat)
    requires forall p :: p in parents ==> |p| == m && InRange(p, n)
    ensures forall c :: c in Expand(parents, n) ==> |c| == m + 1 && InRange(c, n)
  {
    forall c | c in Expand(parents, n) ensures |c| == m + 1 && InRange(c, n) {
      var i := ExpandParent(parents, n, c);
    }
  }

  /** The children of one of the parents are among the children of all of them. */
  lemma ExpandMono(p: Engaged, parents: set<Engaged>, n: nat)
    requires p in parents
    ensures Expand({p}, n) <= Expand(parents, n)
  {
  }

  /** Expanding two sets of parents expands each. */
  lemma ExpandEmpty(n: nat)
    ensures Expand({}, n) == {}
  {
  }

  lemma ExpandUnion(a: set<Engaged>, b: set<Engaged>, n: nat)
    ensures Expand(a + b, n) == Expand(a, n) + Expand(b, n)
  {
  }

  /** Sizes and ranges of the nodes of one level. */
  lemma {:induction false} LevelShape(n: nat, valid: Engaged -> bool, k: nat)
    ensures forall c {:trigger c in Traverse(n, valid, k).level} :: c in Traverse(n, valid, k).level ==> |c| == k && InRange(c, n)
    ensures forall c {:trigger c in Traverse(n, valid, k).rejected} :: c in Traverse(n, valid, k).rejected ==> |c| == k && InRange(c, n) && !valid(c)
    ensures k > 0 ==> forall c {:trigger c in Traverse(n, valid, k).level} :: c in Traverse(n, valid, k).level ==> valid(c)
  {
    if k > 0 {
      LevelShape(n, valid, k - 1);
      var s := Traverse(n, valid, k - 1);
      ExpandShape(s.level, n, k - 1);
    }
  }

  /**
   * What the walk has found after `k` levels: the empty set and valid sets only, every one a
   * subset of the `n` clusters with at most `k` members; invalid nodes that are not empty, are
   * invalid, and have between 1 and `k` members.
   */
  lemma {:induction false} FoundShape(n: nat, valid: Engaged -> bool, k: nat)
    ensures {} in Traverse(n, valid, k).all
    ensures forall c {:trigger c in Traverse(n, valid, k).all} :: c in Traverse(n, valid, k).all ==> InRange(c, n) && |c| <= k && (c == {} || valid(c))
    ensures forall c {:trigger c in Traverse(n, valid, k).invalid} :: c in Traverse(n, valid, k).invalid ==> InRange(c, n) && 1 <= |c| <= k && !valid(c)
  {
    LevelShape(n, valid, k);
    if k > 0 {
      FoundShape(n, valid, k - 1);
    }
  }

  /**
   * Pruning is sound: no assembly the walk accepts is a superset of a node it found invalid, and
   * no invalid node is a proper superset of another, because no child above a recorded invalid
   * node is ever generated.
   */
  lemma {:induction false} NothingAboveInvalid(n: nat, valid: Engaged -> bool, k: nat)
    ensures forall c, v {:trigger c in Traverse(n, valid, k).all, v in Traverse(n, valid, k).invalid} ::
      c in Traverse(n, valid, k).all && v in Traverse(n, valid, k).invalid ==> !(v <= c)
    ensures forall v, w {:trigger v in Traverse(n, valid, k).invalid, w in Traverse(n, valid, k).invalid} ::
      v in Traverse(n, valid, k).invalid && w in Traverse(n, valid, k).invalid && v <= w ==> v == w
  {
    if k > 0 {
      NothingAboveInvalid(n, valid, k - 1);
      FoundSizes(n, valid, k - 1);
      LevelShape(n, valid, k);
      StepMembers(n, valid, k);
      var s, t := Traverse(n, valid, k - 1), Traverse(n, valid, k);
      NothingAboveStep(s.all, s.invalid, t.level, t.rejected, k, valid);
    }
  }

  /** Every member of `found` has fewer than `k` clusters. */
  ghost predicate SizesBelow(found: set<Engaged>, k: nat)
  {
    forall c :: c in found ==> |c| < k
  }

  lemma FoundSizes(n: nat, valid: Engaged -> bool, k: nat)
    ensures SizesBelow(Traverse(n, valid, k).all, k + 1)
    ensures SizesBelow(Traverse(n, valid, k).invalid, k + 1)
  {
    FoundShape(n, valid, k);
  }

  /** One level keeps the walk's pruning sound: the new nodes are above no earlier invalid node. */
  lemma NothingAboveStep(all: set<Engaged>, invalid: set<Engaged>, lvl: set<Engaged>, rej: set<Engaged>, k: nat, valid: Engaged -> bool)
    requires forall c, v :: c in all && v in invalid ==> !(v <= c)
    requires forall v, w :: v in invalid && w in invalid && v <= w ==> v == w
    requires SizesBelow(all, k) && SizesBelow(invalid, k)
    requires forall c :: c in lvl ==> |c| == k && valid(c) && NoInvalidSubset(c, invalid)
    requires forall v :: v in rej ==> |v| == k && !valid(v) && NoInvalidSubset(v, invalid)
    ensures forall c, v :: c in all + lvl && v in invalid + rej ==> !(v <= c)
    ensures forall v, w :: v in invalid + rej && w in invalid + rej && v <= w ==> v == w
  {
    forall c, v | c in all + lvl && v in invalid + rej ensures !(v <= c) {
      if v <= c {
        SubsetCard(v, c);
      }
    }
    forall v, w | v in invalid + rej && w in invalid + rej && v <= w ensures v == w {
      SubsetCard(v, w);
    }
  }

  /** Every assembly the walk accepts after `k` levels is still accepted after more levels. */
  lemma {:induction false} AllGrows(n: nat, valid: Engaged -> bool, j: nat, k: nat)
    requires j <= k
    ensures Traverse(n, valid, j).all <= Traverse(n, valid, k).all
    ensures Traverse(n, valid, j).invalid <= Traverse(n, valid, k).invalid
    decreases k - j
  {
    if j < k {
      AllGrows(n, valid, j, k - 1);
    }
  }

  /**
   * Every accepted assembly is reachable from the empty set by a chain of accepted assemblies,
   * each engaging one more interface cluster than the one before.
   */
  lemma {:induction false} Reachable(n: nat, valid: Engaged -> bool, k: nat)
    ensures forall c :: c in Traverse(n, valid, k).all && c != {} ==> HasParentIn(c, Traverse(n, valid, k).all)
  {
    if k > 0 {
      Reachable(n, valid, k - 1);
      var s, t := Traverse(n, valid, k - 1), Traverse(n, valid, k);
      forall c | c in t.all && c != {} ensures HasParentIn(c, t.all) {
        if c in s.all {
          var i :| i in c && c - {i} in s.all;
        } else {
          var i := ExpandParent(s.level, n, c);
        }
      }
    }
  }

  /**
   * Completeness on one level: when validity is closed under subsets, every valid set of `k`
   * clusters is accepted at level `k`.
   */
  lemma {:induction false} LevelComplete(n: nat, valid: Engaged -> bool, k: nat)
    requires DownwardClosed(valid)
    ensures forall c {:trigger c in Traverse(n, valid, k).level} ::
      InRange(c, n) && |c| == k && (k == 0 || valid(c)) ==> c in Traverse(n, valid, k).level
  {
    if k > 0 {
      LevelComplete(n, valid, k - 1);
      FoundShape(n, valid, k - 1);
      StepMembers(n, valid, k);
      var s, t := Traverse(n, valid, k - 1), Traverse(n, valid, k);
      CompleteStep(s.level, s.invalid, t.level, n, k, valid);
    }
  }

  /**
   * One level keeps the walk complete: if level `k - 1` holds every valid set of `k - 1`
   * clusters and no recorded invalid node is valid, level `k` holds every valid set of `k`.
   */
  lemma CompleteStep(prev: set<Engaged>, invalid: set<Engaged>, lvl: set<Engaged>, n: nat, k: nat, valid: Engaged -> bool)
    requires DownwardClosed(valid) && k >= 1
    requires forall p :: InRange(p, n) && |p| == k - 1 && (k == 1 || valid(p)) ==> p in prev
    requires forall v :: v in invalid ==> !valid(v)
    requires forall c :: c in lvl <==> c in Expand(prev, n) && NoInvalidSubset(c, invalid) && valid(c)
    ensures forall c :: InRange(c, n) && |c| == k && valid(c) ==> c in lvl
  {
    forall c | InRange(c, n) && |c| == k && valid(c) ensures c in lvl {
      var i :| i in c;
      var p := c - {i};
      assert c == p + {i};
      assert valid(p);
      ExpandMember(prev, n, p, i);
      forall v | v in invalid ensures !(v <= c) {
        assert !valid(v);
      }
    }
  }

  /** A set of clusters below `n` has at most `n` members. */
  lemma {:induction false} InRangeCard(c: Engaged, n: nat)
    requires InRange(c, n)
    ensures |c| <= n
  {
    if n > 0 {
      var d := c - {n - 1};
      assert InRange(d, n - 1);
      InRangeCard(d, n - 1);
      assert c <= d + {n - 1};
      SubsetCard(c, d + {n - 1});
    } else {
      assert c == {};
    }
  }

  /**
   * Completeness: when validity is closed under subsets, the walk over all `n` levels accepts
   * exactly the empty set and the valid sets of interface clusters.
   */
  lemma AcceptsExactlyValid(n: nat, valid: Engaged -> bool)
    requires DownwardClosed(valid)
    ensures forall c :: c in Traverse(n, valid, n).all <==> InRange(c, n) && (c == {} || valid(c))
  {
    FoundShape(n, valid, n);
    forall c | InRange(c, n) && (c == {} || valid(c)) ensures c in Traverse(n, valid, n).all {
      InRangeCard(c, n);
      LevelComplete(n, valid, |c|);
      AllGrows(n, valid, |c|, n);
    }
  }

  /** A list records an invalid node below `c` exactly when its set of elements does. */
  lemma NotAboveElems(c: Engaged, invalid: seq<Engaged>)
    ensures NotAboveInvalid(c, invalid) <==> NoInvalidSubset(c, Elems(invalid))
  {
    if !NotAboveInvalid(c, invalid) {
      var j :| 0 <= j < |invalid| && invalid[j] <= c;
      assert invalid[j] in Elems(invalid);
    }
  }

  /** Level `k` is the pruned expansion of level `k - 1`, split by validity. */
  lemma StepMembers(n: nat, valid: Engaged -> bool, k: nat)
    requires k >= 1
    ensures forall c {:trigger c in Traverse(n, valid, k).level} ::
      (c in Traverse(n, valid, k).level
       <==> c in Expand(Traverse(n, valid, k - 1).level, n) && NoInvalidSubset(c, Traverse(n, valid, k - 1).invalid) && valid(c))
    ensures forall c {:trigger c in Traverse(n, valid, k).rejected} ::
      (c in Traverse(n, valid, k).rejected
       <==> c in Expand(Traverse(n, valid, k - 1).level, n) && NoInvalidSubset(c, Traverse(n, valid, k - 1).invalid) && !valid(c))
  {
  }

  /**
   * The children of a parent of `k - 1` clusters, expanded while the invalid list holds the
   * nodes `earlier` and the nodes `recent` of `k` clusters: the one-cluster extensions that
   * are above none of `earlier` and are not in `recent`.
   */
  lemma ChildrenMembers(p: Engaged, n: nat, k: nat, invalid: seq<Engaged>, earlier: set<Engaged>, recent: set<Engaged>)
    requires k >= 1 && |p| == k - 1 && InRange(p, n)
    requires Elems(invalid) == earlier + recent
    requires forall v :: v in recent ==> |v| == k
    ensures forall c :: (c in Children(p, n, invalid)
      <==> c in Expand({p}, n) && NoInvalidSubset(c, earlier) && c !in recent)
  {
    ExpandOne(p, n);
    ExpandShape({p}, n, k - 1);
    forall c | c in Expand({p}, n)
      ensures NotAboveInvalid(c, invalid) <==> NoInvalidSubset(c, earlier) && c !in recent
    {
      ChildAllowed(c, invalid, earlier, recent, k);
    }
  }

  /**
   * A set of `k` clusters passes the invalid list holding the nodes `earlier` and the nodes
   * `recent` of `k` clusters exactly when it is above none of `earlier` and is not in `recent`.
   */
  lemma ChildAllowed(c: Engaged, invalid: seq<Engaged>, earlier: set<Engaged>, recent: set<Engaged>, k: nat)
    requires |c| == k
    requires Elems(invalid) == earlier + recent
    requires forall v :: v in recent ==> |v| == k
    ensures NotAboveInvalid(c, invalid) <==> NoInvalidSubset(c, earlier) && c !in recent
  {
    NotAboveElems(c, invalid);
    NoneOfSameSizeBelow(c, recent, k);
  }

  /** Among sets of `k` clusters, one is a subset of another only when they are equal. */
  lemma NoneOfSameSizeBelow(c: Engaged, recent: set<Engaged>, k: nat)
    requires |c| == k
    requires forall v :: v in recent ==> |v| == k
    ensures NoInvalidSubset(c, recent) <==> c !in recent
  {
    forall v | v in recent && v <= c ensures v == c {
      SubsetCard(v, c);
    }
  }

  /**
   * One parent expanded in the middle of level k: its valid children are exactly its children
   * on level k, and its invalid children are those of level k not recorded yet.
   */
  lemma ChildrenOfParent(n: nat, valid: Engaged -> bool, k: nat, p: Engaged, invalid: seq<Engaged>, recent: set<Engaged>)
    requires k >= 1
    requires p in Traverse(n, valid, k - 1).level
    requires Elems(invalid) == Traverse(n, valid, k - 1).invalid + recent
    requires recent <= Traverse(n, valid, k).rejected
    ensures Select(Children(p, n, invalid), valid, true) == Traverse(n, valid, k).level * Expand({p}, n)
    ensures recent + Select(Children(p, n, invalid), valid, false)
         == recent + Traverse(n, valid, k).rejected * Expand({p}, n)
  {
    var s, t := Traverse(n, valid, k - 1), Traverse(n, valid, k);
    LevelShape(n, valid, k - 1);
    LevelShape(n, valid, k);
    assert forall v :: v in recent ==> |v| == k;
    ChildrenMembers(p, n, k, invalid, s.invalid, recent);
    ExpandMono(p, s.level, n);
    StepMembers(n, valid, k);
    SplitChildren(Children(p, n, invalid), Expand({p}, n), Expand(s.level, n), t.level, t.rejected, s.invalid, recent, valid);
  }

  /** Splitting the children of one parent by validity, in terms of the sets involved. */
  lemma SplitChildren(ch: seq<Engaged>, mine: set<Engaged>, cands: set<Engaged>, lvl: set<Engaged>, rej: set<Engaged>,
                      earlier: set<Engaged>, recent: set<Engaged>, valid: Engaged -> bool)
    requires mine <= cands
    requires forall c :: c in ch <==> c in mine && NoInvalidSubset(c, earlier) && c !in recent
    requires forall c :: c in lvl <==> c in cands && NoInvalidSubset(c, earlier) && valid(c)
    requires forall c :: c in rej <==> c in cands && NoInvalidSubset(c, earlier) && !valid(c)
    requires recent <= rej
    ensures Select(ch, valid, true) == lvl * mine
    ensures recent + Select(ch, valid, false) == recent + rej * mine
  {
  }

  /**
   * Once every parent of level k-1 has been expanded, the children found are all of level k:
   * level k and its invalid nodes lie within the expansion of level k-1.
   */
  lemma LevelDone(n: nat, valid: Engaged -> bool, k: nat)
    requires k >= 1
    ensures Traverse(n, valid, k).level * Expand(Traverse(n, valid, k - 1).level, n) == Traverse(n, valid, k).level
    ensures Traverse(n, valid, k).rejected * Expand(Traverse(n, valid, k - 1).level, n) == Traverse(n, valid, k).rejected
  {
    StepMembers(n, valid, k);
  }

  /** Set algebra for one expanded parent: the children found so far grow by those of `p`. */
  lemma AddParent(lvl: set<Engaged>, rej: set<Engaged>, earlier: set<Engaged>, before: set<Engaged>, mine: set<Engaged>,
                  validChildren: set<Engaged>, invalidChildren: set<Engaged>)
    requires validChildren == lvl * mine
    requires rej * before + invalidChildren == rej * before + rej * mine
    ensures lvl * before + validChildren == lvl * (before + mine)
    ensures earlier + rej * before + invalidChildren == earlier + rej * (before + mine)
  {
    assert rej * (before + mine) == rej * before + rej * mine;
    assert earlier + rej * before + invalidChildren == earlier + (rej * before + invalidChildren);
  }
}
