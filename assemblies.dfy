/**
 * CrystalAssemblies: every valid assembly of a crystal, grouped by stoichiometry and clustered
 * into equivalence classes whose first members are the unique assemblies.
 *
 * The lattice graph, the validity test, the stoichiometry of an assembly and the clustering of
 * a group are computed by collaborators that are not part of this model; they enter through an
 * `Oracle` of functions fixed when the object is built.
 */
module Assemblies {
  import opened Seqs
  import opened Lattice
  import opened Ordered

  /** What the enumerator asks of its collaborators about an engaged set of interface clusters. */
  datatype Oracle = Oracle(
    /** Assembly.isValid: the assembly is finite under the crystal's symmetry. */
    isValid: Engaged -> bool,
    /** StoichiometrySet.isFullyCovering: the assembly contains every entity of the crystal. */
    isFullyCovering: Engaged -> bool,
    /** The copy count of the first entity in the first stoichiometry of the assembly. */
    firstCopyCount: Engaged -> int,
    /** AssemblyGroup.sortIntoClusters: a group split into clusters of equivalent assemblies. */
    sortIntoClusters: seq<Engaged> -> seq<seq<Engaged>>,
    /** Assembly.getEdgeCountInFirstConnectedComponent for an interface cluster id. */
    edgeCount: (Engaged, int) -> int)

  /** The group key of an assembly: its copy count when fully covering, otherwise -1. */
  function GroupKey(o: Oracle, c: Engaged): int
  {
    if o.isFullyCovering(c) then o.firstCopyCount(c) else -1
  }

  /**
   * The groups partition the assemblies by key: every group is a non-empty list of distinct
   * assemblies that all have that group's key, and every assembly is in the group of its key.
   */
  ghost predicate GroupsPartition(groups: map<int, seq<Engaged>>, all: set<Engaged>, o: Oracle)
  {
    && (forall key :: key in groups ==> groups[key] != [] && NoDuplicates(groups[key]))
    && (forall key, i :: key in groups && 0 <= i < |groups[key]| ==> groups[key][i] in all && GroupKey(o, groups[key][i]) == key)
    && (forall c :: c in all ==> GroupKey(o, c) in groups && c in groups[GroupKey(o, c)])
  }

  /** Each assembly of a list as a cluster of its own. */
  function Singletons(xs: seq<Engaged>): (r: seq<seq<Engaged>>)
    ensures |r| == |xs|
    ensures forall i :: 0 <= i < |r| ==> r[i] == [xs[i]]
  {
    if xs == [] then [] else Singletons(xs[..|xs| - 1]) + [[xs[|xs| - 1]]]
  }

  /** The clusters a group contributes: sorted into clusters for a positive key, singletons otherwise. */
  function GroupClusters(o: Oracle, key: int, group: seq<Engaged>): seq<seq<Engaged>>
  {
    if key > 0 then o.sortIntoClusters(group) else Singletons(group)
  }

  /** The clusters of the groups with the given keys, in the order of the keys. */
  function ClustersOf(o: Oracle, groups: map<int, seq<Engaged>>, keys: seq<int>): seq<seq<Engaged>>
    requires forall i :: 0 <= i < |keys| ==> keys[i] in groups
  {
    if keys == [] then []
    else ClustersOf(o, groups, keys[..|keys| - 1]) + GroupClusters(o, keys[|keys| - 1], groups[keys[|keys| - 1]])
  }

  /** The clusters of the groups with the given keys, taken in the TreeMap's ascending key order. */
  ghost function SortedClusters(o: Oracle, groups: map<int, seq<Engaged>>, keys: set<int>): seq<seq<Engaged>>
    requires keys <= groups.Keys
  {
    IntOrder();
    ClustersOf(o, groups, SortedKeys(keys, IntLess))
  }

  class CrystalAssemblies {
    /** The number of interface clusters. */
    const n: nat
    const oracle: Oracle
    /** Every valid assembly of the crystal. */
    var all: set<Engaged>
    /** The assemblies by group key. */
    var groups: map<int, seq<Engaged>>
    /** The clusters of equivalent assemblies; the first member of each is its representative. */
    var clusters: seq<seq<Engaged>>

    /** Enumerates the valid assemblies, then groups and clusters them. */
    constructor(n: nat, oracle: Oracle)
      ensures this.n == n && this.oracle == oracle
      ensures all == Traverse(n, oracle.isValid, n).all
      ensures GroupsPartition(groups, all, oracle)
      ensures clusters == SortedClusters(oracle, groups, groups.Keys)
    {
      this.n := n;
      this.oracle := oracle;
      all := {};
      groups := map[];
      clusters := [];
      new;
      FindValidAssemblies();
      InitGroups();
      InitClusters();
    }

    /**
     * The level-by-level walk of the lattice: each valid node of the previous level is expanded
     * into its children that are not above a node recorded invalid so far; invalid children are
     * recorded, valid ones make up the next level.
     */
    method FindValidAssemblies()
      modifies this
      ensures all == Traverse(n, oracle.isValid, n).all
      ensures groups == old(groups) && clusters == old(clusters)
    {
      all := Walk(n, oracle.isValid);
    }

    /** The loop over the levels 1 to n, starting from the empty assembly. */
    static method Walk(n: nat, valid: Engaged -> bool) returns (validAssemblies: set<Engaged>)
      ensures validAssemblies == Traverse(n, valid, n).all
    {
      validAssemblies := {{}};
      var invalidNodes: seq<Engaged> := [];
      var prevLevel: set<Engaged> := {{}};
      var k := 1;
      while k <= n
        invariant 1 <= k <= n + 1
        invariant prevLevel == Traverse(n, valid, k - 1).level
        invariant validAssemblies == Traverse(n, valid, k - 1).all
        invariant Elems(invalidNodes) == Traverse(n, valid, k - 1).invalid
      {
        prevLevel, validAssemblies, invalidNodes := ExpandLevel(n, valid, k, prevLevel, validAssemblies, invalidNodes);
        k := k + 1;
      }
      assert k - 1 == n;
    }

    /**
     * One level of the walk (one round of the loop over k): every parent of the previous level,
     * taken in any order, has its children added.
     */
    static method ExpandLevel(n: nat, valid: Engaged -> bool, k: nat, prevLevel: set<Engaged>,
                              found: set<Engaged>, invalid: seq<Engaged>)
      returns (nextLevel: set<Engaged>, found': set<Engaged>, invalid': seq<Engaged>)
      requires k >= 1
      requires prevLevel == Traverse(n, valid, k - 1).level
      requires found == Traverse(n, valid, k - 1).all
      requires Elems(invalid) == Traverse(n, valid, k - 1).invalid
      ensures nextLevel == Traverse(n, valid, k).level
      ensures found' == Traverse(n, valid, k).all
      ensures Elems(invalid') == Traverse(n, valid, k).invalid
    {
      nextLevel, found', invalid' := {}, found, invalid;
      var todo := prevLevel;
      ghost var done: set<Engaged> := {};
      ExpandNone(n, valid, k, invalid);
      while todo != {}
        invariant todo !! done && todo + done == prevLevel
        invariant LevelProgress(n, valid, k, done, nextLevel, found', invalid')
        decreases |todo|
      {
        var p :| p in todo;
        nextLevel, found', invalid' := ExpandParent(n, valid, k, p, done, nextLevel, found', invalid');
        MoveOne(todo, done, p, prevLevel);
        todo := todo - {p};
        done := done + {p};
      }
      LevelProgressDone(n, valid, k, done, nextLevel, found', invalid');
    }

    /**
     * The state of the walk through a level once the parents `done` have been expanded: the
     * next level holds their valid children, and their invalid children are recorded.
     */
    static ghost predicate LevelProgress(n: nat, valid: Engaged -> bool, k: nat, done: set<Engaged>,
                                         next: set<Engaged>, found: set<Engaged>, invalid: seq<Engaged>)
    {
      && k >= 1
      && next == Traverse(n, valid, k).level * Expand(done, n)
      && found == Traverse(n, valid, k - 1).all + next
      && Elems(invalid) == Traverse(n, valid, k - 1).invalid + Traverse(n, valid, k).rejected * Expand(done, n)
    }

    static lemma ExpandNone(n: nat, valid: Engaged -> bool, k: nat, invalid: seq<Engaged>)
      requires k >= 1
      requires Elems(invalid) == Traverse(n, valid, k - 1).invalid
      ensures LevelProgress(n, valid, k, {}, {}, Traverse(n, valid, k - 1).all, invalid)
    {
      ExpandEmpty(n);
    }

    static lemma LevelProgressDone(n: nat, valid: Engaged -> bool, k: nat, done: set<Engaged>,
                                   next: set<Engaged>, found: set<Engaged>, invalid: seq<Engaged>)
      requires LevelProgress(n, valid, k, done, next, found, invalid)
      requires done == Traverse(n, valid, k - 1).level
      ensures next == Traverse(n, valid, k).level
      ensures found == Traverse(n, valid, k).all
      ensures Elems(invalid) == Traverse(n, valid, k).invalid
    {
      LevelDone(n, valid, k);
    }

    /** One parent of the previous level has its children, not above an invalid node, added. */
    static method ExpandParent(n: nat, valid: Engaged -> bool, k: nat, p: Engaged, ghost done: set<Engaged>,
                               next: set<Engaged>, found: set<Engaged>, invalid: seq<Engaged>)
      returns (next': set<Engaged>, found': set<Engaged>, invalid': seq<Engaged>)
      requires LevelProgress(n, valid, k, done, next, found, invalid)
      requires p in Traverse(n, valid, k - 1).level && p !in done
      ensures LevelProgress(n, valid, k, done + {p}, next', found', invalid')
    {
      ghost var s, t := Traverse(n, valid, k - 1), Traverse(n, valid, k);
      var children := Children(p, n, invalid);
      ChildrenOfParent(n, valid, k, p, invalid, t.rejected * Expand(done, n));
      ExpandUnion(done, {p}, n);
      AddParent(t.level, t.rejected, s.invalid, Expand(done, n), Expand({p}, n),
                Select(children, valid, true), Select(children, valid, false));
      next', found', invalid' := AddChildren(children, valid, next, found, invalid);
    }

    /**
     * The inner loop of the walk over the children of one parent: invalid children are
     * recorded, valid ones join the next level and the assemblies found.
     */
    static method AddChildren(children: seq<Engaged>, valid: Engaged -> bool, next: set<Engaged>,
                              found: set<Engaged>, invalid: seq<Engaged>)
      returns (next': set<Engaged>, found': set<Engaged>, invalid': seq<Engaged>)
      ensures next' == next + Select(children, valid, true)
      ensures found' == found + Select(children, valid, true)
      ensures Elems(invalid') == Elems(invalid) + Select(children, valid, false)
    {
      next', found', invalid' := next, found, invalid;
      var j := 0;
      while j < |children|
        invariant 0 <= j <= |children|
        invariant next' == next + Select(children[..j], valid, true)
        invariant found' == found + Select(children[..j], valid, true)
        invariant Elems(invalid') == Elems(invalid) + Select(children[..j], valid, false)
      {
        var c := children[j];
        assert children[..j + 1] == children[..j] + [c];
        SelectAppend(children[..j], c, valid, true);
        SelectAppend(children[..j], c, valid, false);
        ElemsAppend(invalid', c);
        if !valid(c) {
          invalid' := invalid' + [c];
        } else {
          next' := next' + {c};
          found' := found' + {c};
        }
        j := j + 1;
      }
      assert children[..j] == children;
    }

    /** Buckets the valid assemblies by group key. */
    method InitGroups()
      modifies this
      ensures all == old(all) && clusters == old(clusters)
      ensures GroupsPartition(groups, all, oracle)
    {
      groups := GroupAll(all, oracle);
    }

    /** The loop of InitGroups over the (unordered) set of assemblies. */
    static method GroupAll(all: set<Engaged>, o: Oracle) returns (groups: map<int, seq<Engaged>>)
      ensures GroupsPartition(groups, all, o)
    {
      groups := map[];
      var todo := all;
      ghost var done: set<Engaged> := {};
      while todo != {}
        invariant todo !! done && todo + done == all
        invariant GroupsPartition(groups, done, o)
        decreases |todo|
      {
        var a :| a in todo;
        var key := if o.isFullyCovering(a) then o.firstCopyCount(a) else -1;
        ghost var before := groups;
        if key !in groups {
          groups := groups[key := [a]];
        } else {
          groups := groups[key := groups[key] + [a]];
        }
        GroupsAdd(before, done, o, a);
        MoveOne(todo, done, a, all);
        todo := todo - {a};
        done := done + {a};
      }
    }

    /** Turns the groups into the list of clusters, group by group in ascending key order. */
    method InitClusters()
      modifies this
      ensures all == old(all) && groups == old(groups)
      ensures clusters == SortedClusters(oracle, groups, groups.Keys)
    {
      clusters := ClusterAll(groups, oracle);
    }

    /** The loop of InitClusters over the keys of the TreeMap, least key first. */
    static method ClusterAll(groups: map<int, seq<Engaged>>, o: Oracle) returns (clusters: seq<seq<Engaged>>)
      ensures clusters == SortedClusters(o, groups, groups.Keys)
    {
      clusters := [];
      var todo := groups.Keys;
      ghost var done: set<int> := {};
      while todo != {}
        invariant todo !! done && todo + done == groups.Keys
        invariant AllBelow(done, todo)
        invariant clusters == SortedClusters(o, groups, done)
        decreases |todo|
      {
        IntMinExists(todo);
        var key :| IsLeast(key, todo);
        var ag := groups[key];
        if key > 0 {
          clusters := AppendAll(clusters, o.sortIntoClusters(ag));
        } else {
          clusters := AppendSingletons(clusters, ag);
        }
        LeastMoved(done, todo, key);
        SortedClustersAddTop(o, groups, done, key);
        MoveOne(todo, done, key, groups.Keys);
        todo := todo - {key};
        done := done + {key};
      }
    }

    /** The loop adding the clusters of a group with a positive key, one by one. */
    static method AppendAll(clusters: seq<seq<Engaged>>, clustersForGroup: seq<seq<Engaged>>)
      returns (clusters': seq<seq<Engaged>>)
      ensures clusters' == clusters + clustersForGroup
    {
      clusters' := clusters;
      var i := 0;
      while i < |clustersForGroup|
        invariant 0 <= i <= |clustersForGroup|
        invariant clusters' == clusters + clustersForGroup[..i]
      {
        assert clustersForGroup[..i + 1] == clustersForGroup[..i] + [clustersForGroup[i]];
        clusters' := clusters' + [clustersForGroup[i]];
        i := i + 1;
      }
      assert clustersForGroup[..i] == clustersForGroup;
    }

    /** The loop adding every assembly of the group of a key that is not positive as a cluster of its own. */
    static method AppendSingletons(clusters: seq<seq<Engaged>>, ag: seq<Engaged>)
      returns (clusters': seq<seq<Engaged>>)
      ensures clusters' == clusters + Singletons(ag)
    {
      clusters' := clusters;
      var i := 0;
      while i < |ag|
        invariant 0 <= i <= |ag|
        invariant clusters' == clusters + Singletons(ag[..i])
      {
        assert ag[..i + 1][..i] == ag[..i];
        clusters' := clusters' + [[ag[i]]];
        i := i + 1;
      }
      assert ag[..i] == ag;
    }

    /** The number of clusters, which is the number of unique assemblies. */
    function Size(): nat
      reads this
    {
      |clusters|
    }

    /** The first member of every cluster, in cluster order. */
    method GetUniqueAssemblies() returns (representatives: seq<Engaged>)
      requires forall i :: 0 <= i < |clusters| ==> clusters[i] != []
      ensures |representatives| == Size()
      ensures forall i :: 0 <= i < |representatives| ==> representatives[i] == clusters[i][0]
    {
      representatives := [];
      var i := 0;
      while i < |clusters|
        invariant 0 <= i <= |clusters|
        invariant |representatives| == i
        invariant forall j :: 0 <= j < i ==> representatives[j] == clusters[j][0]
      {
        representatives := representatives + [clusters[i][0]];
        i := i + 1;
      }
    }

    /**
     * The assembly engaging the given 1-based interface cluster ids; an id outside 1..n has no
     * bit to switch on and is an error.
     */
    method GenerateAssembly(ids: seq<int>) returns (r: Result<Engaged>)
      ensures r.Failure? <==> exists i :: 0 <= i < |ids| && !(1 <= ids[i] <= n)
      ensures r.Success? ==> InRange(r.value, n) && forall x: nat :: x in r.value <==> x + 1 in ids
    {
      var engagedSet: Engaged := {};
      var j := 0;
      while j < |ids|
        invariant 0 <= j <= |ids|
        invariant forall i :: 0 <= i < j ==> 1 <= ids[i] <= n
        invariant InRange(engagedSet, n)
        invariant forall x: nat :: x in engagedSet <==> x + 1 in ids[..j]
      {
        if ids[j] < 1 || ids[j] > n {
          return Failure;
        }
        assert ids[..j + 1] == ids[..j] + [ids[j]];
        engagedSet := engagedSet + {ids[j] - 1};
        j := j + 1;
      }
      assert ids[..j] == ids;
      r := Success(engagedSet);
    }

    /** The assembly engaging a single 1-based interface cluster id. */
    method GenerateSingleAssembly(id: int) returns (r: Result<Engaged>)
      ensures r.Success? <==> 1 <= id <= n
      ensures r.Success? ==> r.value == {id - 1}
    {
      r := GenerateAssembly([id]);
      if r.Success? {
        assert [id][0] == id;
        var single: Engaged := {id - 1};
        forall x: nat ensures x in r.value <==> x in single {
          assert x + 1 in [id] <==> x + 1 == id;
        }
        assert r.value == single;
      }
    }

    /** The number of edges of the given interface cluster in the assembly engaging only it. */
    method GetEdgeMultiplicity(id: int) returns (r: Result<int>)
      ensures r.Success? <==> 1 <= id <= n
      ensures r.Success? ==> r.value == oracle.edgeCount({id - 1}, id)
    {
      var a := GenerateSingleAssembly(id);
      if a.Failure? {
        return Failure;
      }
      r := Success(oracle.edgeCount(a.value, id));
    }
  }

  /** Appending an assembly to the group of its key keeps the groups a partition. */
  lemma GroupsAdd(groups: map<int, seq<Engaged>>, done: set<Engaged>, o: Oracle, a: Engaged)
    requires GroupsPartition(groups, done, o)
    requires a !in done
    ensures var key := GroupKey(o, a);
            GroupsPartition(groups[key := if key in groups then groups[key] + [a] else [a]], done + {a}, o)
  {
    var key := GroupKey(o, a);
    var g := if key in groups then groups[key] + [a] else [a];
    var groups' := groups[key := g];
    if key in groups {
      assert a !in groups[key];
      forall i, j | 0 <= i < j < |g| ensures g[i] != g[j] {
        if j == |g| - 1 {
          assert g[i] == groups[key][i];
        }
      }
    }
    forall k, i | k in groups' && 0 <= i < |groups'[k]|
      ensures groups'[k][i] in done + {a} && GroupKey(o, groups'[k][i]) == k
    {
      if k == key && i < |g| - 1 {
        assert groups'[k][i] == groups[key][i];
      }
    }
  }

  /** Every key of `lo` is below every key of `hi`. */
  ghost predicate AllBelow(lo: set<int>, hi: set<int>)
  {
    forall a, b :: a in lo && b in hi ==> a < b
  }

  /** Moving the least pending key to the finished keys keeps the finished keys below the pending ones. */
  lemma LeastMoved(lo: set<int>, hi: set<int>, key: int)
    requires AllBelow(lo, hi) && IsLeast(key, hi)
    ensures key !in lo && forall x :: x in lo ==> IntLess(x, key)
    ensures AllBelow(lo + {key}, hi - {key})
  {
  }

  /** Finishing a key above every finished key appends the clusters of its group. */
  lemma SortedClustersAddTop(o: Oracle, groups: map<int, seq<Engaged>>, keys: set<int>, key: int)
    requires keys <= groups.Keys && key in groups && key !in keys
    requires forall x :: x in keys ==> IntLess(x, key)
    ensures SortedClusters(o, groups, keys + {key}) == SortedClusters(o, groups, keys) + GroupClusters(o, key, groups[key])
  {
    IntOrder();
    SortedKeysAddTop(keys, key, IntLess);
    ClustersOfSnoc(o, groups, SortedKeys(keys, IntLess), key);
  }

  /**
   * What AssemblyGroup.sortIntoClusters must keep for the clusters to be meaningful: the clusters
   * of a group hold exactly the assemblies of the group.
   */
  ghost predicate ClusteringKeepsMembers(o: Oracle)
  {
    forall g :: multiset(Flatten(o.sortIntoClusters(g))) == multiset(g)
  }

  lemma {:induction false} FlattenSingletons(xs: seq<Engaged>)
    ensures Flatten(Singletons(xs)) == xs
    decreases |xs|
  {
    if xs != [] {
      FlattenSingletons(xs[..|xs| - 1]);
      assert xs == xs[..|xs| - 1] + [xs[|xs| - 1]];
    }
  }

  /** A group's clusters hold each assembly of that group once and nothing else. */
  lemma GroupClustersCount(o: Oracle, groups: map<int, seq<Engaged>>, all: set<Engaged>, key: int, c: Engaged)
    requires GroupsPartition(groups, all, o) && ClusteringKeepsMembers(o)
    requires key in groups
    ensures multiset(Flatten(GroupClusters(o, key, groups[key])))[c] == if c in all && GroupKey(o, c) == key then 1 else 0
  {
    var g := groups[key];
    if key <= 0 {
      FlattenSingletons(g);
    }
    NoDuplicatesCount(g, c);
    if c in g {
      var i :| 0 <= i < |g| && g[i] == c;
    }
  }

  /** The clusters of distinct keys hold every assembly whose key is among them exactly once. */
  lemma {:induction false} ClustersOfCount(o: Oracle, groups: map<int, seq<Engaged>>, all: set<Engaged>, keys: seq<int>, c: Engaged)
    requires GroupsPartition(groups, all, o) && ClusteringKeepsMembers(o)
    requires forall i :: 0 <= i < |keys| ==> keys[i] in groups
    requires NoDuplicates(keys)
    ensures multiset(Flatten(ClustersOf(o, groups, keys)))[c] == if c in all && GroupKey(o, c) in keys then 1 else 0
    decreases |keys|
  {
    if keys != [] {
      var ks, k := keys[..|keys| - 1], keys[|keys| - 1];
      assert keys == ks + [k];
      assert NoDuplicates(ks);
      assert k !in ks by {
        forall i | 0 <= i < |ks| ensures ks[i] != k {
          assert ks[i] == keys[i];
        }
      }
      ClustersOfCount(o, groups, all, ks, c);
      FlattenAppend(ClustersOf(o, groups, ks), GroupClusters(o, k, groups[k]));
      GroupClustersCount(o, groups, all, k, c);
    }
  }

  /**
   * Completeness of the clustering: every valid assembly is in exactly one cluster, and nothing
   * else is in any cluster.
   */
  lemma ClustersCover(o: Oracle, groups: map<int, seq<Engaged>>, all: set<Engaged>)
    requires GroupsPartition(groups, all, o) && ClusteringKeepsMembers(o)
    ensures forall c :: multiset(Flatten(SortedClusters(o, groups, groups.Keys)))[c] == if c in all then 1 else 0
  {
    IntOrder();
    var keys := SortedKeys(groups.Keys, IntLess);
    assert NoDuplicates(keys) by {
      forall i, j | 0 <= i < j < |keys| ensures keys[i] != keys[j] {
        assert IntLess(keys[i], keys[j]);
      }
    }
    forall c ensures multiset(Flatten(ClustersOf(o, groups, keys)))[c] == if c in all then 1 else 0 {
      ClustersOfCount(o, groups, all, keys, c);
    }
  }

  /** The first member of every cluster is one of the valid assemblies. */
  lemma RepresentativesFound(o: Oracle, groups: map<int, seq<Engaged>>, all: set<Engaged>)
    requires GroupsPartition(groups, all, o) && ClusteringKeepsMembers(o)
    ensures var cs := SortedClusters(o, groups, groups.Keys);
            forall i :: 0 <= i < |cs| && cs[i] != [] ==> cs[i][0] in all
  {
    var cs := SortedClusters(o, groups, groups.Keys);
    ClustersCover(o, groups, all);
    forall i | 0 <= i < |cs| && cs[i] != [] ensures cs[i][0] in all {
      assert cs[i][0] in Flatten(cs);
    }
  }

  /** Clusters of keys taken one after the other: the first key's clusters come first. */
  lemma {:induction false} ClustersOfCons(o: Oracle, groups: map<int, seq<Engaged>>, key: int, keys: seq<int>)
    requires key in groups
    requires forall i :: 0 <= i < |keys| ==> keys[i] in groups
    ensures ClustersOf(o, groups, [key] + keys) == GroupClusters(o, key, groups[key]) + ClustersOf(o, groups, keys)
    decreases |keys|
  {
    var all := [key] + keys;
    if keys != [] {
      var ks, last := keys[..|keys| - 1], keys[|keys| - 1];
      assert all[..|all| - 1] == [key] + ks && all[|all| - 1] == last;
      assert ClustersOf(o, groups, all) == ClustersOf(o, groups, [key] + ks) + GroupClusters(o, last, groups[last]);
      ClustersOfCons(o, groups, key, ks);
      assert ClustersOf(o, groups, keys) == ClustersOf(o, groups, ks) + GroupClusters(o, last, groups[last]);
    } else {
      assert all[..0] == [];
    }
  }

  /**
   * With every copy count at least 0, the group of the assemblies that do not cover every entity
   * (key -1) is the first in key order: its assemblies open the cluster list, each on its own.
   */
  lemma NonCoveringFirst(o: Oracle, groups: map<int, seq<Engaged>>)
    requires -1 in groups
    requires forall key :: key in groups ==> key >= -1
    ensures SortedClusters(o, groups, groups.Keys)
         == Singletons(groups[-1]) + SortedClusters(o, groups, groups.Keys - {-1})
  {
    var rest := groups.Keys - {-1};
    assert rest + {-1} == groups.Keys;
    IntKeysAddBottom(rest, -1);
    ClustersOfCons(o, groups, -1, SortedKeys(rest, IntLess));
  }

  /** A key below every other one comes first in key order. */
  lemma IntKeysAddBottom(keys: set<int>, key: int)
    requires forall k :: k in keys ==> key < k
    ensures StrictTotalOrder(IntLess) && SortedKeys(keys + {key}, IntLess) == [key] + SortedKeys(keys, IntLess)
  {
    IntOrder();
    SortedKeysAddBottom(keys, key, IntLess);
  }

  /** Extending the keys by one appends that group's clusters. */
  lemma ClustersOfSnoc(o: Oracle, groups: map<int, seq<Engaged>>, keys: seq<int>, key: int)
    requires forall i :: 0 <= i < |keys| ==> keys[i] in groups
    requires key in groups
    ensures ClustersOf(o, groups, keys + [key]) == ClustersOf(o, groups, keys) + GroupClusters(o, key, groups[key])
  {
    assert (keys + [key])[..|keys|] == keys;
  }
}
