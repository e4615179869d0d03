/**
 * ChainEvolContextList: the evolutionary contexts of an entry's chains, one per representative
 * chain, kept in a TreeMap by chain code, and the domain of life the chains agree on.
 *
 * Retrieving the query's UniProt data and its homologs (BLAST, UniProt, SIFTS, alignment) is
 * not part of this model: a context is what that retrieval left, its query match and taxonomy.
 */
module EvolContexts {
  import opened Seqs
  import opened Ordered

  /** The UniProt match of a chain's sequence, with its taxonomy lineage, most general first. */
  datatype Query = Query(taxons: seq<string>)

  /** The evolutionary context of a representative chain; None when the chain has no query match. */
  datatype ChainEvolContext = ChainEvolContext(representativeChainCode: string, query: Option<Query>)

  /** The chain has a query match with taxons, so it has a say in the domain of life. */
  predicate Contributes(c: ChainEvolContext)
  {
    c.query.Some? && c.query.value.taxons != []
  }

  /** The first taxon of a contributing chain: its domain of life. */
  function FirstTaxon(c: ChainEvolContext): string
    requires Contributes(c)
  {
    c.query.value.taxons[0]
  }

  /** The contributing chains, in order. */
  function Contributors(cs: seq<ChainEvolContext>): (r: seq<ChainEvolContext>)
    ensures forall i :: 0 <= i < |r| ==> Contributes(r[i])
  {
    Filter(cs, Contributes)
  }

  /** Every contributing chain has the first one's domain of life. */
  predicate Agree(ps: seq<ChainEvolContext>)
    requires forall i :: 0 <= i < |ps| ==> Contributes(ps[i])
  {
    forall i :: 0 <= i < |ps| ==> FirstTaxon(ps[i]) == FirstTaxon(ps[0])
  }

  /**
   * The domain of life of an entry whose chains come in the order `cs`: the first taxon of the
   * first contributing chain when all contributing chains share it; None (null) when no chain
   * contributes or two disagree.
   */
  function DomainOfLife(cs: seq<ChainEvolContext>): Option<string>
  {
    var ps := Contributors(cs);
    if ps != [] && Agree(ps) then Some(FirstTaxon(ps[0])) else None
  }

  /** One more chain adds itself to the contributors exactly when it contributes. */
  lemma ContributorsSnoc(cs: seq<ChainEvolContext>, i: nat)
    requires i < |cs|
    ensures Contributors(cs[..i + 1]) == Contributors(cs[..i]) + if Contributes(cs[i]) then [cs[i]] else []
  {
    assert cs[..i + 1][..i] == cs[..i];
  }

  /**
   * Once two contributing chains disagree, the chains after them change nothing: the result is
   * None whatever follows.
   */
  lemma DisagreementIsFinal(pre: seq<ChainEvolContext>, post: seq<ChainEvolContext>)
    requires Contributors(pre) != [] && !Agree(Contributors(pre))
    ensures DomainOfLife(pre + post) == None
  {
    var ps, qs := Contributors(pre), Contributors(post);
    FilterAppend(pre, post, Contributes);
    var all := ps + qs;
    var i :| 0 <= i < |ps| && FirstTaxon(ps[i]) != FirstTaxon(ps[0]);
    assert all[i] == ps[i] && all[0] == ps[0];
    assert !Agree(all);
  }

  /** Chains that do not contribute are skipped: they never change the result. */
  lemma NonContributorSkipped(pre: seq<ChainEvolContext>, c: ChainEvolContext, post: seq<ChainEvolContext>)
    requires !Contributes(c)
    ensures DomainOfLife(pre + [c] + post) == DomainOfLife(pre + post)
  {
    var a, b := pre + [c], Filter(post, Contributes);
    FilterAppend(a, post, Contributes);
    FilterAppend(pre, [c], Contributes);
    FilterAppend(pre, post, Contributes);
    assert Filter([c], Contributes) == [];
    assert Filter(a, Contributes) == Filter(pre, Contributes);
  }

  /** The values of `m` at the keys, in the order of the keys. */
  ghost function ValuesAt(m: map<string, ChainEvolContext>, keys: seq<string>): (r: seq<ChainEvolContext>)
    requires forall i :: 0 <= i < |keys| ==> keys[i] in m
    ensures |r| == |keys| && forall i :: 0 <= i < |keys| ==> r[i] == m[keys[i]]
  {
    seq(|keys|, i requires 0 <= i < |keys| => m[keys[i]])
  }

  /** Chain codes in ascending String.compareTo order, as a TreeMap hands them out. */
  ghost function KeyOrder(keys: set<string>): (r: seq<string>)
    ensures |r| == |keys|
    ensures forall x :: x in r <==> x in keys
  {
    StringOrder();
    SortedKeys(keys, StrLess)
  }

  /** The values of a TreeMap keyed by chain code, in ascending key order. */
  ghost function ValuesInKeyOrder(m: map<string, ChainEvolContext>): (r: seq<ChainEvolContext>)
    ensures |r| == |m.Keys|
  {
    ValuesAt(m, KeyOrder(m.Keys))
  }

  /** A non-empty set of chain codes has a greatest one. */
  lemma LastKeyExists(keys: set<string>)
    requires keys != {}
    ensures exists k :: IsLastKey(k, keys)
  {
    StringOrder();
    MaxExists(keys, StrLess);
    var m :| IsMax(m, keys, StrLess);
    assert IsLastKey(m, keys);
  }

  /** A chain code below all the others comes first. */
  lemma KeyOrderAddBottom(keys: set<string>, k: string)
    requires k !in keys && forall y :: y in keys ==> StrLess(k, y)
    ensures KeyOrder(keys + {k}) == [k] + KeyOrder(keys)
  {
    StringOrder();
    SortedKeysAddBottom(keys, k, StrLess);
  }

  /** A chain code above all the others comes last. */
  lemma KeyOrderAddTop(keys: set<string>, k: string)
    requires k !in keys && forall y :: y in keys ==> StrLess(y, k)
    ensures KeyOrder(keys + {k}) == KeyOrder(keys) + [k]
  {
    StringOrder();
    SortedKeysAddTop(keys, k, StrLess);
  }

  /** `k` is the greatest of the keys in chain-code order. */
  predicate IsLastKey(k: string, keys: set<string>)
  {
    k in keys && forall x :: x in keys && x != k ==> StrLess(x, k)
  }

  class ChainEvolContextList {
    /** One context per representative chain, by chain code. */
    var cecs: map<string, ChainEvolContext>

    constructor()
      ensures cecs == map[]
    {
      cecs := map[];
    }

    /** addChainEvolContext: the chain code now maps to the context; no other entry changes. */
    method AddChainEvolContext(representativeChain: string, cec: ChainEvolContext)
      modifies this
      ensures cecs == old(cecs)[representativeChain := cec]
    {
      cecs := cecs[representativeChain := cec];
    }

    /** getAllChainEvolContext: the contexts in ascending order of representative chain code. */
    method GetAllChainEvolContext() returns (values: seq<ChainEvolContext>)
      ensures values == ValuesInKeyOrder(cecs)
    {
      values := [];
      var todo := cecs.Keys;
      ghost var done: set<string> := {};
      while todo != {}
        invariant Below(todo, done, cecs.Keys)
        invariant values == ValuesAt(cecs, KeyOrder(done))
        decreases |todo|
      {
        LastKeyExists(todo);
        var k :| IsLastKey(k, todo);
        TakeLast(cecs, todo, done, k);
        values := [cecs[k]] + values;
        todo := todo - {k};
        done := done + {k};
      }
    }

    /**
     * getDomainOfLife: the chains are visited in key order, chains without a query match or
     * without taxons are skipped, the first contributing chain sets the domain of life and the
     * first chain that disagrees with it makes the result null and ends the loop.
     */
    method GetDomainOfLife() returns (dol: Option<string>)
      ensures dol == DomainOfLife(ValuesInKeyOrder(cecs))
    {
      var cs := GetAllChainEvolContext();
      dol := FirstAgreedTaxon(cs);
    }
  }

  /** The loop of getDomainOfLife over the contexts in key order. */
  method FirstAgreedTaxon(cs: seq<ChainEvolContext>) returns (dol: Option<string>)
    ensures dol == DomainOfLife(cs)
  {
    dol := None;
    var i := 0;
    while i < |cs|
      invariant 0 <= i <= |cs|
      invariant Tracks(Contributors(cs[..i]), dol)
    {
      var chainEvCont := cs[i];
      ContributorsSnoc(cs, i);
      if chainEvCont.query.None? {
        i := i + 1;
        continue;
      }
      if chainEvCont.query.value.taxons != [] {
        TracksStep(Contributors(cs[..i]), chainEvCont, dol);
        if dol.None? {
          dol := Some(chainEvCont.query.value.taxons[0]);
        } else if chainEvCont.query.value.taxons[0] != dol.value {
          DisagreementEnds(cs, i);
          // the source breaks out of the loop and returns null
          dol := None;
          return;
        }
      }
      i := i + 1;
    }
    assert cs[..i] == cs;
    TracksDomain(cs, dol);
  }

  /** A disagreement among the first i + 1 chains decides the whole sequence. */
  lemma DisagreementEnds(cs: seq<ChainEvolContext>, i: nat)
    requires i < |cs|
    requires Contributors(cs[..i + 1]) != [] && !Agree(Contributors(cs[..i + 1]))
    ensures DomainOfLife(cs) == None
  {
    DisagreementIsFinal(cs[..i + 1], cs[i + 1..]);
    assert cs[..i + 1] + cs[i + 1..] == cs;
  }

  /** What the loop knows once it has seen every chain is the domain of life. */
  lemma TracksDomain(cs: seq<ChainEvolContext>, dol: Option<string>)
    requires Tracks(Contributors(cs), dol)
    ensures dol == DomainOfLife(cs)
  {
  }

  /** What the loop of getDomainOfLife knows of the contributing chains seen so far. */
  predicate Tracks(ps: seq<ChainEvolContext>, dol: Option<string>)
    requires forall i :: 0 <= i < |ps| ==> Contributes(ps[i])
  {
    && (dol.None? <==> ps == [])
    && (dol.Some? ==> Agree(ps) && dol.value == FirstTaxon(ps[0]))
  }

  /** One more contributing chain: the first sets the domain of life, a later one agrees or not. */
  lemma TracksStep(ps: seq<ChainEvolContext>, c: ChainEvolContext, dol: Option<string>)
    requires forall i :: 0 <= i < |ps| ==> Contributes(ps[i])
    requires Contributes(c) && Tracks(ps, dol)
    ensures dol.None? ==> Tracks(ps + [c], Some(FirstTaxon(c)))
    ensures dol.Some? && FirstTaxon(c) == dol.value ==> Tracks(ps + [c], dol)
    ensures dol.Some? && FirstTaxon(c) != dol.value ==> ps + [c] != [] && !Agree(ps + [c])
  {
    var qs := ps + [c];
    assert qs[|ps|] == c;
    if ps != [] {
      assert qs[0] == ps[0];
    }
  }

  lemma ValuesAtCons(m: map<string, ChainEvolContext>, k: string, keys: seq<string>)
    requires k in m && forall i :: 0 <= i < |keys| ==> keys[i] in m
    ensures ValuesAt(m, [k] + keys) == [m[k]] + ValuesAt(m, keys)
  {
  }

  /** The keys split into those still to visit, all below those already visited. */
  ghost predicate Below(todo: set<string>, done: set<string>, keys: set<string>)
  {
    todo !! done && todo + done == keys && forall x, y :: x in todo && y in done ==> StrLess(x, y)
  }

  /** Visiting the greatest pending key puts its context in front of the visited ones. */
  lemma TakeLast(m: map<string, ChainEvolContext>, todo: set<string>, done: set<string>, k: string)
    requires Below(todo, done, m.Keys) && IsLastKey(k, todo)
    ensures Below(todo - {k}, done + {k}, m.Keys) && |todo - {k}| < |todo|
    ensures ValuesAt(m, KeyOrder(done + {k})) == [m[k]] + ValuesAt(m, KeyOrder(done))
  {
    KeyOrderAddBottom(done, k);
    ValuesAtCons(m, k, KeyOrder(done));
    MoveOne(todo, done, k, m.Keys);
  }

  /**
   * Adding a chain code above every present one appends its context: the TreeMap's order does
   * not depend on the order of insertion.
   */
  lemma AddLastKeyAppends(m: map<string, ChainEvolContext>, k: string, c: ChainEvolContext)
    requires k !in m && forall x :: x in m ==> StrLess(x, k)
    ensures ValuesInKeyOrder(m[k := c]) == ValuesInKeyOrder(m) + [c]
  {
    var m' := m[k := c];
    assert m'.Keys == m.Keys + {k};
    KeyOrderAddTop(m.Keys, k);
    ValuesAtSnoc(m, KeyOrder(m.Keys), k, c);
  }

  /** Looking up one more, freshly added, key extends the values by its context. */
  lemma ValuesAtSnoc(m: map<string, ChainEvolContext>, ks: seq<string>, k: string, c: ChainEvolContext)
    requires k !in m && forall i :: 0 <= i < |ks| ==> ks[i] in m
    ensures ValuesAt(m[k := c], ks + [k]) == ValuesAt(m, ks) + [c]
  {
    var r := ValuesAt(m[k := c], ks + [k]);
    forall i | 0 <= i < |ks| ensures r[i] == ValuesAt(m, ks)[i] {
      assert (ks + [k])[i] == ks[i];
    }
  }
}
