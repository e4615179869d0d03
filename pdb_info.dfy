/**
 * PdbInfo: a PDB entry as read back from the EPPIC database, with a lookup from chain codes to
 * chain clusters, the interfaces above an area threshold, the lattice overlap matrix of two
 * entries and a "same content" test between entries.
 */
module PdbEntries {
  import opened Seqs

  /** A sequence-clustering level (SeqClusterLevel), named by its identity percentage. */
  type SeqClusterLevel = nat

  /**
   * A chain cluster row: the representative chain, the other member chains, written as one
   * comma-separated string that may be null, and the id of the sequence cluster the chains
   * fall in at each clustering level.
   */
  datatype ChainCluster = ChainCluster(repChain: string, memberChains: Option<string>,
                                       seqClusterIds: map<SeqClusterLevel, int>)

  /** An interface row: its id (1-based within the entry) and its buried area. */
  datatype Interface = Interface(interfaceId: int, area: real)

  /** The database record of an entry: its chain clusters and its interface clusters. */
  datatype PdbInfoRecord = PdbInfoRecord(chainClusters: seq<ChainCluster>, interfaceClusters: seq<seq<Interface>>)

  /** Interfaces at or below this area are left out of the lattice comparison. */
  const MinAreaLatticeComparison: real := 100.0

  /** The cluster names the chain: as its representative or among its split member chains. */
  predicate Lists(cc: ChainCluster, chain: string)
  {
    chain == cc.repChain || (cc.memberChains.Some? && chain in JavaSplit(cc.memberChains.value, ','))
  }

  /** The lookup after the entries of one more cluster are put in it. */
  function AddCluster(lookup: map<string, ChainCluster>, cc: ChainCluster): (r: map<string, ChainCluster>)
    ensures forall k :: k in r <==> k in lookup || Lists(cc, k)
    ensures forall k :: k in r ==> r[k] == if Lists(cc, k) then cc else lookup[k]
  {
    var withRep := lookup[cc.repChain := cc];
    if cc.memberChains.None? then withRep
    else withRep + map m | m in JavaSplit(cc.memberChains.value, ',') :: cc
  }

  /** The lookup the clusters build, in their order. */
  function Lookup(clusters: seq<ChainCluster>): map<string, ChainCluster>
  {
    if clusters == [] then map[]
    else AddCluster(Lookup(clusters[..|clusters| - 1]), clusters[|clusters| - 1])
  }

  /**
   * A chain is in the lookup exactly when some cluster names it, and it maps to the last
   * cluster that does (a later cluster overwrites an earlier one).
   */
  lemma LookupLast(clusters: seq<ChainCluster>, chain: string)
    ensures chain in Lookup(clusters) <==> exists i :: 0 <= i < |clusters| && Lists(clusters[i], chain)
    ensures forall i :: 0 <= i < |clusters| && Lists(clusters[i], chain)
                        && (forall j :: i < j < |clusters| ==> !Lists(clusters[j], chain))
                        ==> chain in Lookup(clusters) && Lookup(clusters)[chain] == clusters[i]
  {
    LookupNames(clusters, chain);
    forall i | 0 <= i < |clusters| && Lists(clusters[i], chain)
               && (forall j :: i < j < |clusters| ==> !Lists(clusters[j], chain))
      ensures chain in Lookup(clusters) && Lookup(clusters)[chain] == clusters[i]
    {
      LastListingWins(clusters, chain, i);
    }
  }

  /** A chain is in the lookup exactly when some cluster names it. */
  lemma {:induction false} LookupNames(clusters: seq<ChainCluster>, chain: string)
    ensures chain in Lookup(clusters) <==> exists i :: 0 <= i < |clusters| && Lists(clusters[i], chain)
    decreases |clusters|
  {
    if clusters != [] {
      var n := |clusters| - 1;
      var init := clusters[..n];
      LookupNames(init, chain);
      if Lists(clusters[n], chain) {
        assert chain in Lookup(clusters);
      } else if chain in Lookup(init) {
        var i :| 0 <= i < n && Lists(init[i], chain);
        assert clusters[i] == init[i];
      } else {
        forall i | 0 <= i < |clusters| ensures !Lists(clusters[i], chain) {
          if i < n {
            assert clusters[i] == init[i];
          }
        }
      }
    }
  }

  /** A chain maps to the last cluster that names it. */
  lemma {:induction false} LastListingWins(clusters: seq<ChainCluster>, chain: string, i: nat)
    requires i < |clusters| && Lists(clusters[i], chain)
    requires forall j :: i < j < |clusters| ==> !Lists(clusters[j], chain)
    ensures chain in Lookup(clusters) && Lookup(clusters)[chain] == clusters[i]
    decreases |clusters|
  {
    var n := |clusters| - 1;
    var init := clusters[..n];
    if i < n {
      forall j | i < j < n ensures !Lists(init[j], chain) {
        assert init[j] == clusters[j];
      }
      assert init[i] == clusters[i];
      LastListingWins(init, chain, i);
      assert !Lists(clusters[n], chain);
    }
  }

  /** The interfaces of an entry, cluster by cluster. */
  function AllInterfaces(rec: PdbInfoRecord): seq<Interface>
  {
    Flatten(rec.interfaceClusters)
  }

  /** The interfaces with area strictly above `area`, in order. */
  function AboveArea(interfaces: seq<Interface>, area: real): seq<Interface>
  {
    Filter(interfaces, (x: Interface) => x.area > area)
  }

  /** A higher threshold never lets more interfaces through. */
  lemma {:induction false} AboveAreaMonotone(interfaces: seq<Interface>, low: real, high: real)
    requires low <= high
    ensures |AboveArea(interfaces, high)| <= |AboveArea(interfaces, low)|
    ensures forall x :: x in AboveArea(interfaces, high) ==> x in AboveArea(interfaces, low)
    decreases |interfaces|
  {
    if interfaces != [] {
      var init, last := interfaces[..|interfaces| - 1], interfaces[|interfaces| - 1];
      assert interfaces == init + [last];
      AboveAreaMonotone(init, low, high);
      FilterAppend(init, [last], (x: Interface) => x.area > high);
      FilterAppend(init, [last], (x: Interface) => x.area > low);
    }
  }

  /** Every cluster carries a sequence cluster id at the level. */
  predicate HasLevel(clusters: seq<ChainCluster>, level: SeqClusterLevel)
  {
    forall i :: 0 <= i < |clusters| ==> level in clusters[i].seqClusterIds
  }

  /**
   * The "same content" test as written: as many chain clusters on both sides, and every
   * sequence cluster id of the first side occurs on the second side.
   */
  predicate SameContent(clusters1: seq<ChainCluster>, clusters2: seq<ChainCluster>, level: SeqClusterLevel)
    requires HasLevel(clusters1, level) && HasLevel(clusters2, level)
  {
    |clusters1| == |clusters2| && forall i :: 0 <= i < |clusters1| ==> Matches(clusters1[i], clusters2, level)
  }

  /** Some cluster of `clusters` has the sequence cluster id of `cc` at the level. */
  predicate Matches(cc: ChainCluster, clusters: seq<ChainCluster>, level: SeqClusterLevel)
    requires level in cc.seqClusterIds && HasLevel(clusters, level)
  {
    exists j :: 0 <= j < |clusters| && cc.seqClusterIds[level] == clusters[j].seqClusterIds[level]
  }

  /** The sequence cluster ids of the clusters at the level. */
  function SeqClusterIds(clusters: seq<ChainCluster>, level: SeqClusterLevel): set<int>
    requires HasLevel(clusters, level)
  {
    set i | 0 <= i < |clusters| :: clusters[i].seqClusterIds[level]
  }

  /** The same test on id sets: equal cluster counts and the first side's ids among the second's. */
  lemma SameContentIsInclusion(clusters1: seq<ChainCluster>, clusters2: seq<ChainCluster>, level: SeqClusterLevel)
    requires HasLevel(clusters1, level) && HasLevel(clusters2, level)
    ensures SameContent(clusters1, clusters2, level)
        <==> |clusters1| == |clusters2| && SeqClusterIds(clusters1, level) <= SeqClusterIds(clusters2, level)
  {
    var ids1, ids2 := SeqClusterIds(clusters1, level), SeqClusterIds(clusters2, level);
    if |clusters1| == |clusters2| && ids1 <= ids2 {
      forall i | 0 <= i < |clusters1| ensures Matches(clusters1[i], clusters2, level) {
        assert clusters1[i].seqClusterIds[level] in ids2;
      }
    }
    if SameContent(clusters1, clusters2, level) {
      forall x | x in ids1 ensures x in ids2 {
        var i :| 0 <= i < |clusters1| && x == clusters1[i].seqClusterIds[level];
        assert Matches(clusters1[i], clusters2, level);
        var j :| 0 <= j < |clusters2| && x == clusters2[j].seqClusterIds[level];
      }
    }
  }

  /** Every entry has the same content as itself. */
  lemma SameContentReflexive(clusters: seq<ChainCluster>, level: SeqClusterLevel)
    requires HasLevel(clusters, level)
    ensures SameContent(clusters, clusters, level)
  {
    forall i | 0 <= i < |clusters| ensures Matches(clusters[i], clusters, level) {
      assert clusters[i].seqClusterIds[level] == clusters[i].seqClusterIds[level];
    }
  }

  /**
   * The test is one-directional: ids {1, 1} against {1, 2} pass, the other way round they do
   * not (the 2 has no match).
   */
  lemma SameContentNotSymmetric(a: ChainCluster, b: ChainCluster, c: ChainCluster, level: SeqClusterLevel)
    requires level in a.seqClusterIds && level in b.seqClusterIds && level in c.seqClusterIds
    requires a.seqClusterIds[level] == 1 && b.seqClusterIds[level] == 1 && c.seqClusterIds[level] == 2
    ensures SameContent([a, b], [a, c], level)
    ensures !SameContent([a, c], [a, b], level)
  {
    assert [a, c][0] == a;
    assert Matches([a, b][1], [a, c], level);
    assert !Matches([a, c][1], [a, b], level);
  }

  /**
   * The ids, not the chain names, decide: two entries whose only clusters are both named "A"
   * but fall in different sequence clusters do not have the same content.
   */
  lemma SameNamesDifferentContent(level: SeqClusterLevel, id1: int, id2: int)
    requires id1 != id2
    ensures var a1, a2 := ChainCluster("A", None, map[level := id1]), ChainCluster("A", None, map[level := id2]);
            !SameContent([a1], [a2], level)
  {
    var a1, a2 := ChainCluster("A", None, map[level := id1]), ChainCluster("A", None, map[level := id2]);
    assert !Matches([a1][0], [a2], level);
  }

  /** The last interface of the list with the given id. */
  function LastWithId(interfaces: seq<Interface>, id: int): (r: Option<Interface>)
    ensures r.Some? ==> r.value in interfaces && r.value.interfaceId == id
    ensures r.None? <==> forall x :: x in interfaces ==> x.interfaceId != id
  {
    if interfaces == [] then None
    else if interfaces[|interfaces| - 1].interfaceId == id then Some(interfaces[|interfaces| - 1])
    else LastWithId(interfaces[..|interfaces| - 1], id)
  }

  /** Every id of the list is a row (or column) index plus one of a matrix with `count` rows (columns). */
  predicate IdsInRange(interfaces: seq<Interface>, count: int)
  {
    forall x :: x in interfaces ==> 1 <= x.interfaceId <= count
  }

  /**
   * Cell (p, q) of the overlap matrix: the overlap of the last interfaces with ids p + 1 and q + 1
   * (later pairs overwrite earlier ones), 0.0 where no such pair exists.
   */
  function Cell(rows: seq<Interface>, cols: seq<Interface>, p: int, q: int, overlap: (Interface, Interface) -> real): real
  {
    match (LastWithId(rows, p + 1), LastWithId(cols, q + 1))
    case (Some(x), Some(y)) => overlap(x, y)
    case _ => 0.0
  }

  class PdbInfo {
    /** The database record this entry wraps. */
    const pdbInfo: PdbInfoRecord
    /** Chain code to chain cluster, built once. */
    const chainIdLookup: map<string, ChainCluster>

    ghost predicate Valid()
    {
      chainIdLookup == Lookup(pdbInfo.chainClusters)
    }

    constructor(pdbInfo: PdbInfoRecord)
      ensures this.pdbInfo == pdbInfo && Valid()
    {
      this.pdbInfo := pdbInfo;
      var lookup := GetChainIdLookup(pdbInfo.chainClusters);
      chainIdLookup := lookup;
    }

    /** getChainIdLookup: every cluster's representative and split member chains, cluster by cluster. */
    static method GetChainIdLookup(clusters: seq<ChainCluster>) returns (lookup: map<string, ChainCluster>)
      ensures lookup == Lookup(clusters)
    {
      lookup := map[];
      var i := 0;
      while i < |clusters|
        invariant 0 <= i <= |clusters|
        invariant lookup == Lookup(clusters[..i])
      {
        assert clusters[..i + 1][..i] == clusters[..i];
        var cc := clusters[i];
        ghost var before := lookup;
        lookup := lookup[cc.repChain := cc];
        if cc.memberChains.Some? {
          lookup := PutAll(lookup, JavaSplit(cc.memberChains.value, ','), cc);
        }
        assert lookup == AddCluster(before, cc);
        i := i + 1;
      }
      assert clusters[..i] == clusters;
    }

    /** The inner loop of getChainIdLookup: every member chain is put in the lookup with its cluster. */
    static method PutAll(lookup: map<string, ChainCluster>, chains: seq<string>, cc: ChainCluster)
      returns (r: map<string, ChainCluster>)
      ensures r == lookup + map m | m in chains :: cc
    {
      r := lookup;
      var j := 0;
      while j < |chains|
        invariant 0 <= j <= |chains|
        invariant r == lookup + map m | m in chains[..j] :: cc
      {
        assert chains[..j + 1] == chains[..j] + [chains[j]];
        r := r[chains[j] := cc];
        j := j + 1;
      }
      assert chains[..j] == chains;
    }

    /**
     * getChainCluster: the cluster of a chain code, None (null) for a code no cluster names;
     * the last cluster naming it wins.
     */
    function GetChainCluster(pdbChainCode: string): (r: Option<ChainCluster>)
      requires Valid()
      ensures r.Some? <==> exists i :: 0 <= i < |pdbInfo.chainClusters| && Lists(pdbInfo.chainClusters[i], pdbChainCode)
      ensures r.Some? ==> r.value in pdbInfo.chainClusters && Lists(r.value, pdbChainCode)
      ensures forall i :: 0 <= i < |pdbInfo.chainClusters| && Lists(pdbInfo.chainClusters[i], pdbChainCode)
                          && (forall j :: i < j < |pdbInfo.chainClusters| ==> !Lists(pdbInfo.chainClusters[j], pdbChainCode))
                          ==> r == Some(pdbInfo.chainClusters[i])
    {
      LookupLast(pdbInfo.chainClusters, pdbChainCode);
      LookupValues(pdbInfo.chainClusters, pdbChainCode);
      if pdbChainCode in chainIdLookup then Some(chainIdLookup[pdbChainCode]) else None
    }

    /** getInterfaces: all interfaces, cluster by cluster. */
    method GetInterfaces() returns (list: seq<Interface>)
      ensures list == AllInterfaces(pdbInfo)
      ensures |list| == TotalLength(pdbInfo.interfaceClusters)
    {
      var ics := pdbInfo.interfaceClusters;
      list := [];
      var i := 0;
      while i < |ics|
        invariant 0 <= i <= |ics|
        invariant list == Flatten(ics[..i])
      {
        var j := 0;
        while j < |ics[i]|
          invariant 0 <= j <= |ics[i]|
          invariant list == Flatten(ics[..i]) + ics[i][..j]
        {
          assert ics[i][..j + 1] == ics[i][..j] + [ics[i][j]];
          list := list + [ics[i][j]];
          j := j + 1;
        }
        assert ics[i][..j] == ics[i];
        assert ics[..i + 1][..i] == ics[..i];
        i := i + 1;
      }
      assert ics[..i] == ics;
      FlattenLength(ics);
    }

    /** getNumInterfacesAboveArea: the number of interfaces with area strictly above `area`. */
    method GetNumInterfacesAboveArea(area: real) returns (count: nat)
      ensures count == |AboveArea(AllInterfaces(pdbInfo), area)|
    {
      var ics := pdbInfo.interfaceClusters;
      count := 0;
      var i := 0;
      while i < |ics|
        invariant 0 <= i <= |ics|
        invariant count == |AboveArea(Flatten(ics[..i]), area)|
      {
        count := CountAbove(count, ics[i], area);
        AboveAreaNextCluster(ics, i, area);
        i := i + 1;
      }
      assert ics[..i] == ics;
    }

    /** The inner loop of getNumInterfacesAboveArea over the interfaces of one cluster. */
    static method CountAbove(count: nat, ic: seq<Interface>, area: real) returns (count': nat)
      ensures count' == count + |AboveArea(ic, area)|
    {
      count' := count;
      var j := 0;
      while j < |ic|
        invariant 0 <= j <= |ic|
        invariant count' == count + |AboveArea(ic[..j], area)|
      {
        AboveAreaSnoc(ic[..j], ic[j], area);
        assert ic[..j + 1] == ic[..j] + [ic[j]];
        if ic[j].area > area {
          count' := count' + 1;
        }
        j := j + 1;
      }
      assert ic[..j] == ic;
    }

    /** getInterfacesAboveArea: the interfaces with area strictly above `area`, in order. */
    method GetInterfacesAboveArea(area: real) returns (list: seq<Interface>)
      ensures list == AboveArea(AllInterfaces(pdbInfo), area)
    {
      var ics := pdbInfo.interfaceClusters;
      list := [];
      var i := 0;
      while i < |ics|
        invariant 0 <= i <= |ics|
        invariant list == AboveArea(Flatten(ics[..i]), area)
      {
        list := AppendAbove(list, ics[i], area);
        AboveAreaNextCluster(ics, i, area);
        i := i + 1;
      }
      assert ics[..i] == ics;
    }

    /** The inner loop of getInterfacesAboveArea over the interfaces of one cluster. */
    static method AppendAbove(list: seq<Interface>, ic: seq<Interface>, area: real) returns (list': seq<Interface>)
      ensures list' == list + AboveArea(ic, area)
    {
      list' := list;
      var j := 0;
      while j < |ic|
        invariant 0 <= j <= |ic|
        invariant list' == list + AboveArea(ic[..j], area)
      {
        AboveAreaSnoc(ic[..j], ic[j], area);
        assert ic[..j + 1] == ic[..j] + [ic[j]];
        if ic[j].area > area {
          list' := list' + [ic[j]];
        }
        j := j + 1;
      }
      assert ic[..j] == ic;
    }

    /**
     * haveSameContent: false when the numbers of chain clusters differ; otherwise every chain
     * cluster of this entry is looked for, by sequence cluster id, among the other's, and the
     * first one without a match ends the test.
     */
    method HaveSameContent(other: PdbInfo, level: SeqClusterLevel) returns (same: bool)
      requires HasLevel(pdbInfo.chainClusters, level) && HasLevel(other.pdbInfo.chainClusters, level)
      ensures same <==> SameContent(pdbInfo.chainClusters, other.pdbInfo.chainClusters, level)
    {
      var clusters1, clusters2 := pdbInfo.chainClusters, other.pdbInfo.chainClusters;
      if |clusters1| != |clusters2| {
        return false;
      }
      var i := 0;
      while i < |clusters1|
        invariant 0 <= i <= |clusters1|
        invariant forall k :: 0 <= k < i ==> Matches(clusters1[k], clusters2, level)
      {
        var found := false;
        var chainCluster1 := clusters1[i];
        var seqClusterId1 := chainCluster1.seqClusterIds[level];
        var j := 0;
        while j < |clusters2|
          invariant 0 <= j <= |clusters2|
          invariant !found ==> forall k :: 0 <= k < j ==> clusters2[k].seqClusterIds[level] != seqClusterId1
        {
          if seqClusterId1 == clusters2[j].seqClusterIds[level] {
            found := true;
            break;
          }
          j := j + 1;
        }
        if !found {
          return false;
        }
        i := i + 1;
      }
      return true;
    }

    /**
     * calcLatticeOverlapMatrix: a matrix with a row per interface of this entry and a column per
     * interface of the other entry above the minimum area, each interface pair's overlap written
     * at (id1 - 1, id2 - 1). An id outside the matrix ends the computation with an
     * index-out-of-bounds error, but only once a pair is written, that is, when both sides have
     * interfaces.
     */
    method CalcLatticeOverlapMatrix(other: PdbInfo, overlap: (Interface, Interface) -> real) returns (r: Result<array2<real>>)
      ensures var rows := AboveArea(AllInterfaces(pdbInfo), MinAreaLatticeComparison);
              var cols := AboveArea(AllInterfaces(other.pdbInfo), MinAreaLatticeComparison);
              && (r.Failure? <==> OutOfMatrix(rows, cols))
              && (r.Success? ==> && fresh(r.value) && r.value.Length0 == |rows| && r.value.Length1 == |cols|
                                 && Holds(r.value, rows, cols, overlap))
    {
      var interfCount1 := GetNumInterfacesAboveArea(MinAreaLatticeComparison);
      var interfCount2 := other.GetNumInterfacesAboveArea(MinAreaLatticeComparison);
      var matrix := new real[interfCount1, interfCount2]((_, _) => 0.0);
      var rows := GetInterfacesAboveArea(MinAreaLatticeComparison);
      var cols := other.GetInterfacesAboveArea(MinAreaLatticeComparison);
      var ok := FillOverlaps(matrix, rows, cols, overlap);
      r := if ok then Success(matrix) else Failure;
    }

    /** The nested loops of calcLatticeOverlapMatrix; false when a write falls outside the matrix. */
    static method FillOverlaps(matrix: array2<real>, rows: seq<Interface>, cols: seq<Interface>, overlap: (Interface, Interface) -> real)
      returns (ok: bool)
      requires matrix.Length0 == |rows| && matrix.Length1 == |cols|
      requires forall p, q :: 0 <= p < matrix.Length0 && 0 <= q < matrix.Length1 ==> matrix[p, q] == 0.0
      modifies matrix
      ensures ok <==> !OutOfMatrix(rows, cols)
      ensures ok ==> Holds(matrix, rows, cols, overlap)
    {
      assert Holds(matrix, rows[..0], cols, overlap);
      var i := 0;
      while i < |rows|
        invariant 0 <= i <= |rows|
        invariant cols != [] ==> IdsInRange(rows[..i], |rows|)
        invariant i > 0 && cols != [] ==> IdsInRange(cols, |cols|)
        invariant Holds(matrix, rows[..i], cols, overlap)
      {
        ok := FillRow(matrix, rows, i, cols, overlap);
        if !ok {
          return;
        }
        assert rows[..i + 1] == rows[..i] + [rows[i]];
        i := i + 1;
      }
      assert rows[..i] == rows;
      ok := true;
    }

    /** The inner loop of calcLatticeOverlapMatrix: the overlaps of row interface `rows[i]` with every column interface. */
    static method FillRow(matrix: array2<real>, rows: seq<Interface>, i: nat, cols: seq<Interface>, overlap: (Interface, Interface) -> real)
      returns (ok: bool)
      requires i < |rows| && matrix.Length0 == |rows| && matrix.Length1 == |cols|
      requires Holds(matrix, rows[..i], cols, overlap)
      modifies matrix
      ensures ok <==> cols == [] || (1 <= rows[i].interfaceId <= |rows| && IdsInRange(cols, |cols|))
      ensures ok ==> Holds(matrix, rows[..i + 1], cols, overlap)
    {
      var x := rows[i];
      RowStarts(matrix, rows[..i], x, cols, overlap);
      var j := 0;
      while j < |cols|
        invariant 0 <= j <= |cols|
        invariant j > 0 ==> 1 <= x.interfaceId <= |rows| && IdsInRange(cols[..j], |cols|)
        invariant RowHolds(matrix, rows[..i], x, cols[..j], cols, overlap)
      {
        var y := cols[j];
        if !(0 <= x.interfaceId - 1 < matrix.Length0 && 0 <= y.interfaceId - 1 < matrix.Length1) {
          assert y in cols;
          return false;
        }
        WriteCell(matrix, rows[..i], x, cols[..j], y, cols, overlap);
        assert cols[..j + 1] == cols[..j] + [y];
        j := j + 1;
      }
      assert cols[..j] == cols;
      RowFinished(matrix, rows[..i], x, cols, overlap);
      assert rows[..i + 1] == rows[..i] + [x];
      ok := true;
    }
  }

  /** An id falls outside the matrix, and some pair is written (both sides have interfaces). */
  predicate OutOfMatrix(rows: seq<Interface>, cols: seq<Interface>)
  {
    rows != [] && cols != [] && !(IdsInRange(rows, |rows|) && IdsInRange(cols, |cols|))
  }

  /** Every cell of the matrix holds what the pairs of `rows` and `cols` leave in it. */
  ghost predicate Holds(m: array2<real>, rows: seq<Interface>, cols: seq<Interface>, overlap: (Interface, Interface) -> real)
    reads m
  {
    forall p, q :: 0 <= p < m.Length0 && 0 <= q < m.Length1 ==> m[p, q] == Cell(rows, cols, p, q, overlap)
  }

  /** Partway through the row of `x`: its pairs with `colsDone` are written over what the earlier rows left. */
  ghost predicate RowHolds(m: array2<real>, done: seq<Interface>, x: Interface, colsDone: seq<Interface>, cols: seq<Interface>,
                           overlap: (Interface, Interface) -> real)
    reads m
  {
    forall p, q :: 0 <= p < m.Length0 && 0 <= q < m.Length1 ==>
      m[p, q] == (if p == x.interfaceId - 1 && LastWithId(colsDone, q + 1).Some?
                  then overlap(x, LastWithId(colsDone, q + 1).value)
                  else Cell(done, cols, p, q, overlap))
  }

  /** Before the row of `x` is written, the matrix holds what the earlier rows left. */
  lemma RowStarts(m: array2<real>, done: seq<Interface>, x: Interface, cols: seq<Interface>,
                  overlap: (Interface, Interface) -> real)
    requires Holds(m, done, cols, overlap)
    ensures RowHolds(m, done, x, [], cols, overlap)
  {
  }

  /** Once the row of `x` is written against every column, the matrix holds the rows up to `x`. */
  lemma RowFinished(m: array2<real>, done: seq<Interface>, x: Interface, cols: seq<Interface>,
                    overlap: (Interface, Interface) -> real)
    requires RowHolds(m, done, x, cols, cols, overlap)
    ensures Holds(m, done + [x], cols, overlap)
  {
    LastWithIdSnoc(done, x);
  }

  /** Writing the overlap of `x` and `y` at their cell extends the row of `x` by `y`. */
  method WriteCell(m: array2<real>, done: seq<Interface>, x: Interface, colsDone: seq<Interface>, y: Interface,
                   cols: seq<Interface>, overlap: (Interface, Interface) -> real)
    requires 0 <= x.interfaceId - 1 < m.Length0 && 0 <= y.interfaceId - 1 < m.Length1
    requires RowHolds(m, done, x, colsDone, cols, overlap)
    modifies m
    ensures RowHolds(m, done, x, colsDone + [y], cols, overlap)
  {
    m[x.interfaceId - 1, y.interfaceId - 1] := overlap(x, y);
    LastWithIdSnoc(colsDone, y);
  }

  /** Appending an interface makes it the last one with its id and leaves the other ids alone. */
  lemma LastWithIdSnoc(interfaces: seq<Interface>, x: Interface)
    ensures forall id :: LastWithId(interfaces + [x], id) == if id == x.interfaceId then Some(x) else LastWithId(interfaces, id)
  {
    assert (interfaces + [x])[..|interfaces|] == interfaces;
  }

  /** The interfaces of one more cluster pass the area filter on their own. */
  lemma AboveAreaNextCluster(ics: seq<seq<Interface>>, i: nat, area: real)
    requires i < |ics|
    ensures AboveArea(Flatten(ics[..i + 1]), area) == AboveArea(Flatten(ics[..i]), area) + AboveArea(ics[i], area)
  {
    assert ics[..i + 1][..i] == ics[..i];
    FilterAppend(Flatten(ics[..i]), ics[i], (x: Interface) => x.area > area);
  }

  /** One more interface passes the area filter exactly when its area is above the threshold. */
  lemma AboveAreaSnoc(interfaces: seq<Interface>, x: Interface, area: real)
    ensures AboveArea(interfaces + [x], area) == AboveArea(interfaces, area) + (if x.area > area then [x] else [])
  {
    FilterAppend(interfaces, [x], (y: Interface) => y.area > area);
    assert [x][..0] == [];
  }

  /** Every value in the lookup is one of the clusters, and one that names the chain. */
  lemma {:induction false} LookupValues(clusters: seq<ChainCluster>, chain: string)
    ensures chain in Lookup(clusters) ==> Lookup(clusters)[chain] in clusters && Lists(Lookup(clusters)[chain], chain)
    decreases |clusters|
  {
    if clusters != [] {
      LookupValues(clusters[..|clusters| - 1], chain);
    }
  }
}
