/**
 * InterfaceEvolContext: the evolutionary call for an interface between two chains. Each member
 * (chain) first calls bio, xtal, gray or nopred for every buried-area cutoff; the members' calls
 * are then counted as votes and turned into one call per cutoff.
 *
 * The conservation scores come from alignments of homologs and are computed in floating
 * point; here the core/rim score ratio of a member at a cutoff is an input, a real number or NaN.
 */
module InterfaceEvol {
  import opened Seqs
  import opened Calls

  /** A score ratio as a double: a real number, or NaN (no residue could be scored). */
  datatype Score = NaN | Num(value: real)

  /** `score < cutoff` on doubles: false for NaN. */
  predicate Below(score: Score, cutoff: real)
  {
    score.Num? && score.value < cutoff
  }

  /** `score > cutoff` on doubles: false for NaN. */
  predicate Above(score: Score, cutoff: real)
  {
    score.Num? && score.value > cutoff
  }

  datatype ScoringType = Entropy | KaKs

  /** A residue, by its PDB serial. */
  type Residue = int

  /** What the call needs to know about one interface member (one chain of the interface). */
  datatype Member = Member(
    isProtein: bool,
    numHomologs: int,
    /** The core residues at each cutoff. */
    core: seq<seq<Residue>>,
    /** The rim residues at each cutoff. */
    rim: seq<seq<Residue>>,
    /** The core score over the rim score at each cutoff. */
    ratios: seq<Score>,
    /** The residue maps to a position where the PDB SEQRES does not match the UniProt sequence. */
    pdbMismatch: Residue -> bool,
    /** The residue maps to a position with unreliable CDS information. */
    cdsUnreliable: Residue -> bool)

  ghost predicate WellFormed(m: Member, cutoffs: nat)
  {
    |m.core| == cutoffs && |m.rim| == cutoffs && |m.ratios| == cutoffs
  }

  /** The cut-offs getCalls is given. */
  datatype Cutoffs = Cutoffs(bio: real, xtal: real, homologs: int, minCoreSize: int, minMemberCoreSize: int)

  /**
   * The number of unreliable residues in a list: those failing the PDB check, followed, under
   * Ka/Ks scoring, by those failing the CDS check (the two lists are concatenated, not merged).
   */
  function UnreliableCount(residues: seq<Residue>, m: Member, kaks: bool): nat
  {
    |Filter(residues, m.pdbMismatch)| + (if kaks then |Filter(residues, m.cdsUnreliable)| else 0)
  }

  /**
   * `(double) count / (double) size > 0.05`: for an empty list 0/0 is NaN (false) and a positive
   * count over 0 is infinity (true).
   */
  predicate TooUnreliable(count: nat, size: nat)
  {
    if size == 0 then count > 0 else 20 * count > size
  }

  /** The integer test is the fraction test on exact reals. */
  lemma TooUnreliableIsFraction(count: nat, size: nat)
    requires size > 0
    ensures TooUnreliable(count, size) <==> (count as real) / (size as real) > 0.05
  {
    var c, s := count as real, size as real;
    var q := c / s;
    assert q * s == c;
    assert 20 * count > size <==> 20.0 * c > s;
    ScaleKeepsOrder(0.05, q, s);
    assert 0.05 * s * 20.0 == s;
  }

  lemma ScaleKeepsOrder(x: real, y: real, s: real)
    requires s > 0.0
    ensures x < y <==> x * s < y * s
  {
  }

  /**
   * The call of one member at one cutoff, or None (the null array entry) when the member is not
   * a protein or has too few homologs.
   */
  function MemberCall(m: Member, i: nat, kaks: bool, c: Cutoffs): Option<CallType>
    requires i < |m.core| && i < |m.rim| && i < |m.ratios|
  {
    if !m.isProtein || m.numHomologs < c.homologs then None
    else if |m.core[i]| < c.minMemberCoreSize then Some(Crystal)
    else if TooUnreliable(UnreliableCount(m.core[i], m, kaks), |m.core[i]|) then Some(NoPrediction)
    else if TooUnreliable(UnreliableCount(m.rim[i], m, kaks), |m.rim[i]|) then Some(NoPrediction)
    else if Below(m.ratios[i], c.bio) then Some(Bio)
    else if Above(m.ratios[i], c.xtal) then Some(Crystal)
    else Some(Gray)
  }

  /** The calls of one member at every cutoff. */
  function MemberCalls(m: Member, cutoffs: nat, kaks: bool, c: Cutoffs): (r: seq<Option<CallType>>)
    requires WellFormed(m, cutoffs)
    ensures |r| == cutoffs
    ensures forall i :: 0 <= i < cutoffs ==> r[i] == MemberCall(m, i, kaks, c)
  {
    seq(cutoffs, i requires 0 <= i < cutoffs => MemberCall(m, i, kaks, c))
  }

  /** The members whose call at cutoff `i` is `t`, in member order. */
  function Voters(calls: seq<seq<Option<CallType>>>, i: nat, t: CallType): (r: seq<int>)
    requires forall k :: 0 <= k < |calls| ==> i < |calls[k]|
    ensures forall j :: 0 <= j < |r| ==> 0 <= r[j] < |calls|
  {
    if calls == [] then []
    else
      var k := |calls| - 1;
      assert forall x :: 0 <= x < k ==> calls[..k][x] == calls[x];
      Voters(calls[..k], i, t) + (if calls[k][i] == Some(t) then [k] else [])
  }

  /** The voters for `t` are exactly the members that call `t`. */
  lemma {:induction false} VotersExact(calls: seq<seq<Option<CallType>>>, i: nat, t: CallType)
    requires forall k :: 0 <= k < |calls| ==> i < |calls[k]|
    ensures forall x :: x in Voters(calls, i, t) <==> 0 <= x < |calls| && calls[x][i] == Some(t)
    decreases |calls|
  {
    if calls != [] {
      var k := |calls| - 1;
      var pre := calls[..k];
      VotersExact(pre, i, t);
      assert forall x :: 0 <= x < k ==> pre[x] == calls[x];
      var tail := if calls[k][i] == Some(t) then [k] else [];
      assert Voters(calls, i, t) == Voters(pre, i, t) + tail;
      forall x ensures x in Voters(calls, i, t) <==> 0 <= x < |calls| && calls[x][i] == Some(t) {
        assert x in Voters(calls, i, t) <==> x in Voters(pre, i, t) || x in tail;
      }
    }
  }

  /** Each member votes once: the voters come in strictly ascending member order. */
  lemma {:induction false} VotersAscending(calls: seq<seq<Option<CallType>>>, i: nat, t: CallType)
    requires forall k :: 0 <= k < |calls| ==> i < |calls[k]|
    ensures forall a, b :: 0 <= a < b < |Voters(calls, i, t)| ==> Voters(calls, i, t)[a] < Voters(calls, i, t)[b]
    decreases |calls|
  {
    if calls != [] {
      var k := |calls| - 1;
      var pre := calls[..k];
      VotersAscending(pre, i, t);
      var r, p := Voters(calls, i, t), Voters(pre, i, t);
      assert r == p + if calls[k][i] == Some(t) then [k] else [];
      forall a, b | 0 <= a < b < |r| ensures r[a] < r[b] {
        assert r[a] == p[a] && p[a] < k;
        if b < |p| {
          assert r[b] == p[b] && p[a] < p[b];
        } else {
          assert r[b] == k;
        }
      }
    }
  }


  /** No member calls `t`: nobody votes `t`. */
  lemma {:induction false} NoVoters(calls: seq<seq<Option<CallType>>>, i: nat, t: CallType)
    requires forall k :: 0 <= k < |calls| ==> i < |calls[k]| && calls[k][i] != Some(t)
    ensures Voters(calls, i, t) == []
    decreases |calls|
  {
    if calls != [] {
      NoVoters(calls[..|calls| - 1], i, t);
    }
  }

  /** The last member's call adds at most one vote. */
  lemma VotersLast(calls: seq<seq<Option<CallType>>>, i: nat, t: CallType)
    requires calls != [] && forall k :: 0 <= k < |calls| ==> i < |calls[k]|
    ensures |Voters(calls, i, t)| == |Voters(calls[..|calls| - 1], i, t)| + (if calls[|calls| - 1][i] == Some(t) then 1 else 0)
  {
  }

  /** The four lists are the members voting bio, xtal, gray and nopred at cutoff `i`. */
  ghost predicate Tallied(calls: seq<seq<Option<CallType>>>, i: nat, bios: seq<int>, xtals: seq<int>, grays: seq<int>, nopreds: seq<int>)
    requires forall k :: 0 <= k < |calls| ==> i < |calls[k]|
  {
    && bios == Voters(calls, i, Bio) && xtals == Voters(calls, i, Crystal)
    && grays == Voters(calls, i, Gray) && nopreds == Voters(calls, i, NoPrediction)
  }

  /** One more member's call is one more vote, appended to the list of what it calls. */
  lemma TallyOne(calls: seq<seq<Option<CallType>>>, k: nat, i: nat, bios: seq<int>, xtals: seq<int>, grays: seq<int>, nopreds: seq<int>)
    requires k < |calls| && forall j :: 0 <= j < |calls| ==> i < |calls[j]|
    requires Tallied(calls[..k], i, bios, xtals, grays, nopreds)
    ensures Tallied(calls[..k + 1], i,
                    if calls[k][i] == Some(Bio) then bios + [k] else bios,
                    if calls[k][i] == Some(Crystal) then xtals + [k] else xtals,
                    if calls[k][i] == Some(Gray) then grays + [k] else grays,
                    if calls[k][i] == Some(NoPrediction) then nopreds + [k] else nopreds)
  {
    VotersPrefix(calls, k, i, Bio);
    VotersPrefix(calls, k, i, Crystal);
    VotersPrefix(calls, k, i, Gray);
    VotersPrefix(calls, k, i, NoPrediction);
  }

  lemma VotersPrefix(calls: seq<seq<Option<CallType>>>, k: nat, i: nat, t: CallType)
    requires k < |calls| && forall j :: 0 <= j < |calls| ==> i < |calls[j]|
    ensures Voters(calls[..k + 1], i, t) == if calls[k][i] == Some(t) then Voters(calls[..k], i, t) + [k] else Voters(calls[..k], i, t)
  {
    assert calls[..k + 1][..k] == calls[..k];
    assert Voters(calls[..k], i, t) + [] == Voters(calls[..k], i, t);
  }

  /** The vote maps hold, for each of the first `n` cutoffs, the members voting each call. */
  ghost predicate VotesRecorded(calls: seq<seq<Option<CallType>>>, n: nat, bio: map<int, seq<int>>, xtal: map<int, seq<int>>,
                                gray: map<int, seq<int>>, nopred: map<int, seq<int>>)
    requires forall k :: 0 <= k < |calls| ==> n <= |calls[k]|
  {
    forall j :: 0 <= j < n ==>
      j in bio && j in xtal && j in gray && j in nopred && Tallied(calls, j, bio[j], xtal[j], gray[j], nopred[j])
  }

  /** The number of members with a (non-null) call at cutoff `i`. */
  function Voting(calls: seq<seq<Option<CallType>>>, i: nat): nat
    requires forall k :: 0 <= k < |calls| ==> i < |calls[k]|
  {
    if calls == [] then 0
    else Voting(calls[..|calls| - 1], i) + (if calls[|calls| - 1][i].Some? then 1 else 0)
  }

  /** Every member with a call votes exactly once: the four vote lists together count the voters. */
  lemma {:induction false} VotesCounted(calls: seq<seq<Option<CallType>>>, i: nat)
    requires forall k :: 0 <= k < |calls| ==> i < |calls[k]|
    ensures |Voters(calls, i, Bio)| + |Voters(calls, i, Crystal)| + |Voters(calls, i, Gray)|
            + |Voters(calls, i, NoPrediction)| == Voting(calls, i)
    decreases |calls|
  {
    if calls != [] {
      var k := |calls| - 1;
      VotesCounted(calls[..k], i);
      VotersLast(calls, i, Bio);
      VotersLast(calls, i, Crystal);
      VotersLast(calls, i, Gray);
      VotersLast(calls, i, NoPrediction);
      assert Voting(calls, i) == Voting(calls[..k], i) + (if calls[k][i].Some? then 1 else 0);
      if calls[k][i].Some? {
        var t := calls[k][i].value;
        assert t == Bio || t == Crystal || t == Gray || t == NoPrediction;
      }
    }
  }

  /** The summed ratios of the given members at cutoff `i`, None as soon as one is NaN. */
  function SumRatios(members: seq<Member>, indices: seq<int>, i: nat): Option<real>
    requires forall k :: 0 <= k < |indices| ==> 0 <= indices[k] < |members| && i < |members[indices[k]].ratios|
  {
    if indices == [] then Some(0.0)
    else
      var last := members[indices[|indices| - 1]].ratios[i];
      match SumRatios(members, indices[..|indices| - 1], i)
      case None => None
      case Some(s) => if last.NaN? then None else Some(s + last.value)
  }

  /** getAvrgRatio: the mean ratio of the given members; NaN for no members (0.0 / 0). */
  function AverageRatio(members: seq<Member>, indices: seq<int>, i: nat): Score
    requires forall x :: x in indices ==> 0 <= x < |members| && i < |members[x].ratios|
  {
    if indices == [] then NaN
    else
      assert forall k :: 0 <= k < |indices| ==> indices[k] in indices;
      match SumRatios(members, indices, i)
      case None => NaN
      case Some(s) => Num(s / (|indices| as real))
  }

  /** getSumCoreSize: the core sizes of members 0 and 1 among the indices, each as often as it is listed. */
  function CoreSum(members: seq<Member>, indices: seq<int>, i: nat): int
    requires |members| == 2 && i < |members[0].core| && i < |members[1].core|
  {
    if indices == [] then 0
    else
      var ind := indices[|indices| - 1];
      CoreSum(members, indices[..|indices| - 1], i)
        + (if ind == 0 then |members[0].core[i]| else if ind == 1 then |members[1].core[i]| else 0)
  }

  /** Only the listed occurrences of members 0 and 1 add to the summed core size. */
  lemma {:induction false} CoreSumCounts(members: seq<Member>, indices: seq<int>, i: nat)
    requires |members| == 2 && i < |members[0].core| && i < |members[1].core|
    ensures CoreSum(members, indices, i)
         == multiset(indices)[0] * |members[0].core[i]| + multiset(indices)[1] * |members[1].core[i]|
    decreases |indices|
  {
    if indices != [] {
      var init, last := indices[..|indices| - 1], indices[|indices| - 1];
      assert indices == init + [last];
      assert multiset(indices) == multiset(init) + multiset{last};
      CoreSumCounts(members, init, i);
      var a, b := |members[0].core[i]|, |members[1].core[i]|;
      var m0, m1 := multiset(init)[0], multiset(init)[1];
      if last == 0 {
        assert multiset(indices)[0] == m0 + 1 && multiset(indices)[1] == m1;
        OneMore(m0, a);
      } else if last == 1 {
        assert multiset(indices)[0] == m0 && multiset(indices)[1] == m1 + 1;
        OneMore(m1, b);
      } else {
        assert multiset(indices)[0] == m0 && multiset(indices)[1] == m1;
      }
    }
  }

  lemma OneMore(m: int, a: int)
    ensures (m + 1) * a == m * a + a
  {
  }

  /**
   * The final call and score at cutoff `i`, as the source writes them: the all-nopred
   * assignment comes first and is not chained with the if-chain that follows, whose last
   * branch (`countBio == countXtal`) holds whenever the earlier ones fail.
   */
  function Decision(members: seq<Member>, calls: seq<seq<Option<CallType>>>, i: nat, c: Cutoffs): (Option<CallType>, Score)
    requires |members| == 2 && |calls| == 2
    requires forall k :: 0 <= k < 2 ==> i < |calls[k]| && i < |members[k].core| && i < |members[k].ratios|
  {
    var bios, xtals, grays := Voters(calls, i, Bio), Voters(calls, i, Crystal), Voters(calls, i, Gray);
    var initial := if |Voters(calls, i, NoPrediction)| == |calls| then (Some(NoPrediction), NaN) else (None, Num(0.0));
    if |bios| > |xtals| then (Some(Bio), AverageRatio(members, bios, i))
    else if |xtals| > |bios| then (Some(Crystal), AverageRatio(members, xtals, i))
    else if |grays| > |bios| + |xtals| then (Some(Gray), AverageRatio(members, grays, i))
    else if |bios| == |xtals| then
      var score := AverageRatio(members, bios + xtals, i);
      if CoreSum(members, bios + xtals, i) < c.minCoreSize then (Some(Crystal), score)
      else if Below(score, c.bio) then (Some(Bio), score)
      else if Above(score, c.xtal) then (Some(Crystal), score)
      else (Some(Gray), score)
    else initial
  }

  /** The if-chain is exhaustive: every cutoff gets a call, and that call is never nopred. */
  lemma DecisionNeverNoPrediction(members: seq<Member>, calls: seq<seq<Option<CallType>>>, i: nat, c: Cutoffs)
    requires |members| == 2 && |calls| == 2
    requires forall k :: 0 <= k < 2 ==> i < |calls[k]| && i < |members[k].core| && i < |members[k].ratios|
    ensures Decision(members, calls, i, c).0.Some?
    ensures Decision(members, calls, i, c).0.value != NoPrediction
  {
  }

  /**
   * When every member calls nopred there are no bio or xtal voters: the tie branch overwrites the
   * nopred call, with an empty core (xtal) whenever the minimum core size is positive.
   */
  lemma AllNoPredictionIsCrystal(members: seq<Member>, calls: seq<seq<Option<CallType>>>, i: nat, c: Cutoffs)
    requires |members| == 2 && |calls| == 2
    requires forall k :: 0 <= k < 2 ==> i < |calls[k]| && i < |members[k].core| && i < |members[k].ratios|
    requires forall k :: 0 <= k < 2 ==> calls[k][i] == Some(NoPrediction)
    requires c.minCoreSize > 0
    ensures Decision(members, calls, i, c) == (Some(Crystal), NaN)
  {
    NoVoters(calls, i, Bio);
    NoVoters(calls, i, Crystal);
    NoVoters(calls, i, Gray);
  }

  /** The bio/xtal majority decides alone: gray and nopred votes only matter on a tie. */
  lemma MajorityDecides(members: seq<Member>, calls: seq<seq<Option<CallType>>>, i: nat, c: Cutoffs)
    requires |members| == 2 && |calls| == 2
    requires forall k :: 0 <= k < 2 ==> i < |calls[k]| && i < |members[k].core| && i < |members[k].ratios|
    ensures var r := Decision(members, calls, i, c).0.value;
            var b, x := |Voters(calls, i, Bio)|, |Voters(calls, i, Crystal)|;
            && (b > x <==> r == Bio && b != x)
            && (x > b <==> r == Crystal && b != x)
            && (r == Gray ==> b == x)
  {
  }

  /** A Java `char`: one UTF-16 code unit. */
  newtype JChar = x: int | 0 <= x < 0x1_0000

  predicate IsUpper(ch: JChar)
  {
    'A' as int <= ch as int <= 'Z' as int
  }

  predicate IsLower(ch: JChar)
  {
    'a' as int <= ch as int <= 'z' as int
  }

  /** The letter after `letter`, with 'Z' and 'z' going back to 'A' and 'a'; `char` arithmetic wraps at 2^16. */
  function NextLetter(letter: JChar): (r: JChar)
    ensures r != letter
    ensures IsUpper(letter) ==> IsUpper(r) && (r as int - 'A' as int) == (letter as int - 'A' as int + 1) % 26
    ensures IsLower(letter) ==> IsLower(r) && (r as int - 'a' as int) == (letter as int - 'a' as int + 1) % 26
  {
    if letter as int != 'Z' as int && letter as int != 'z' as int then ((letter as int + 1) % 0x1_0000) as JChar
    else (letter as int - 25) as JChar
  }

  /**
   * The chain code the second chain is written with when the interface is written to a file:
   * when both chains have the same code, the letter after the first letter of the first chain's
   * code. An empty shared code has no first letter (charAt(0) throws) and is an error. The
   * first chain's code is null when the first member is not a protein, and then no renaming
   * happens; the codes here are those of two protein chains, so that case does not arise.
   */
  function SecondChainForOutput(chain1: seq<JChar>, chain2: seq<JChar>): (r: Result<seq<JChar>>)
    ensures chain1 != chain2 ==> r == Success(chain2)
    ensures chain1 == chain2 && chain2 != [] ==> r.Success? && |r.value| == 1 && r.value[0] != chain1[0]
    ensures r.Failure? <==> chain1 == [] && chain2 == []
    ensures r.Success? ==> r.value != chain1 || chain1 != chain2
  {
    if chain1 == chain2 then
      if chain2 == [] then Failure else Success([NextLetter(chain2[0])])
    else Success(chain2)
  }

  class InterfaceEvolContext {
    /** The two members of the interface. */
    const members: seq<Member>
    /** The number of buried-area cutoffs. */
    const cutoffs: nat
    /** The type of the last scoring run, null before any. */
    var lastScoType: Option<ScoringType>
    /** The final score of each cutoff, from the last getCalls. */
    var finalScores: seq<Score>
    /** The members voting each call, per cutoff, from the last getCalls. */
    var bioCalls: map<int, seq<int>>
    var xtalCalls: map<int, seq<int>>
    var grayCalls: map<int, seq<int>>
    var noPredictCalls: map<int, seq<int>>

    ghost predicate Valid()
    {
      |members| == 2 && WellFormed(members[0], cutoffs) && WellFormed(members[1], cutoffs)
    }

    constructor(members: seq<Member>, cutoffs: nat)
      requires |members| == 2 && WellFormed(members[0], cutoffs) && WellFormed(members[1], cutoffs)
      ensures Valid() && this.members == members && this.cutoffs == cutoffs
      ensures lastScoType == None
    {
      this.members := members;
      this.cutoffs := cutoffs;
      lastScoType := None;
      finalScores := [];
      bioCalls, xtalCalls, grayCalls, noPredictCalls := map[], map[], map[], map[];
    }

    /** scoreEntropy: as far as the calls are concerned, it records the scoring type. */
    method ScoreEntropy()
      modifies this
      ensures lastScoType == Some(Entropy)
      ensures finalScores == old(finalScores) && bioCalls == old(bioCalls) && xtalCalls == old(xtalCalls)
      ensures grayCalls == old(grayCalls) && noPredictCalls == old(noPredictCalls)
    {
      lastScoType := Some(Entropy);
    }

    /** scoreKaKs: as far as the calls are concerned, it records the scoring type. */
    method ScoreKaKs()
      modifies this
      ensures lastScoType == Some(KaKs)
      ensures finalScores == old(finalScores) && bioCalls == old(bioCalls) && xtalCalls == old(xtalCalls)
      ensures grayCalls == old(grayCalls) && noPredictCalls == old(noPredictCalls)
    {
      lastScoType := Some(KaKs);
    }

    /** The residues of a list that fail a reliability check, in list order. */
    static method CheckReliability(residues: seq<Residue>, unreliable: Residue -> bool) returns (r: seq<Residue>)
      ensures r == Filter(residues, unreliable)
    {
      r := [];
      var j := 0;
      while j < |residues|
        invariant 0 <= j <= |residues|
        invariant r == Filter(residues[..j], unreliable)
      {
        assert residues[..j + 1][..j] == residues[..j];
        if unreliable(residues[j]) {
          r := r + [residues[j]];
        }
        j := j + 1;
      }
      assert residues[..j] == residues;
    }

    /**
     * countReliableCoreRes / countReliableRimRes: for every cutoff, the PDB-unreliable residues
     * of the list, followed under Ka/Ks scoring by the CDS-unreliable ones, counted together.
     */
    static method CountUnreliable(lists: seq<seq<Residue>>, m: Member, kaks: bool) returns (counts: seq<nat>)
      ensures |counts| == |lists|
      ensures forall i :: 0 <= i < |lists| ==> counts[i] == UnreliableCount(lists[i], m, kaks)
    {
      counts := [];
      var i := 0;
      while i < |lists|
        invariant 0 <= i <= |lists|
        invariant |counts| == i
        invariant forall j :: 0 <= j < i ==> counts[j] == UnreliableCount(lists[j], m, kaks)
      {
        var unreliableResidues := CheckReliability(lists[i], m.pdbMismatch);
        if kaks {
          var cds := CheckReliability(lists[i], m.cdsUnreliable);
          unreliableResidues := unreliableResidues + cds;
        }
        counts := counts + [|unreliableResidues|];
        i := i + 1;
      }
    }

    /** hasEnoughCore(molecId, minMemberCoreSize): whether the member's core reaches the size, per cutoff. */
    method MemberHasEnoughCore(molecId: nat, minMemberCoreSize: int) returns (bs: seq<bool>)
      requires Valid() && molecId < 2
      ensures |bs| == cutoffs
      ensures forall i :: 0 <= i < cutoffs ==> (bs[i] <==> |members[molecId].core[i]| >= minMemberCoreSize)
    {
      bs := [];
      var i := 0;
      while i < cutoffs
        invariant 0 <= i <= cutoffs
        invariant |bs| == i
        invariant forall j :: 0 <= j < i ==> (bs[j] <==> |members[molecId].core[j]| >= minMemberCoreSize)
      {
        bs := bs + [|members[molecId].core[i]| >= minMemberCoreSize];
        i := i + 1;
      }
    }

    /**
     * The member's score ratios are there when getMemberCalls reads them: the scores stay null
     * until a scoring run, and getScoreRatios is reached only for a protein with enough homologs
     * and at least one cutoff.
     */
    ghost predicate RatiosReadable(molecId: nat, c: Cutoffs)
      requires molecId < |members|
      reads this
    {
      lastScoType.Some? || cutoffs == 0 || !members[molecId].isProtein || members[molecId].numHomologs < c.homologs
    }

    /** getMemberCalls: the calls of one member at every cutoff. */
    method GetMemberCalls(molecId: nat, c: Cutoffs) returns (calls: seq<Option<CallType>>)
      requires Valid() && molecId < 2
      requires RatiosReadable(molecId, c)
      ensures |calls| == cutoffs
      ensures forall i :: 0 <= i < cutoffs ==> calls[i] == MemberCall(members[molecId], i, lastScoType == Some(KaKs), c)
    {
      var m := members[molecId];
      var kaks := lastScoType == Some(KaKs);
      calls := seq(cutoffs, _ => None);
      if !m.isProtein {
      } else if m.numHomologs < c.homologs {
      } else {
        var enoughCore := MemberHasEnoughCore(molecId, c.minMemberCoreSize);
        var countsRelCoreRes := CountUnreliable(m.core, m, kaks);
        var countsRelRimRes := CountUnreliable(m.rim, m, kaks);
        var ratios := m.ratios;
        var i := 0;
        while i < cutoffs
          invariant 0 <= i <= cutoffs && |calls| == cutoffs
          invariant forall j :: 0 <= j < i ==> calls[j] == MemberCall(m, j, kaks, c)
        {
          if !enoughCore[i] {
            calls := calls[i := Some(Crystal)];
          } else if TooUnreliable(countsRelCoreRes[i], |m.core[i]|) {
            calls := calls[i := Some(NoPrediction)];
          } else if TooUnreliable(countsRelRimRes[i], |m.rim[i]|) {
            calls := calls[i := Some(NoPrediction)];
          } else if Below(ratios[i], c.bio) {
            calls := calls[i := Some(Bio)];
          } else if Above(ratios[i], c.xtal) {
            calls := calls[i := Some(Crystal)];
          } else {
            calls := calls[i := Some(Gray)];
          }
          i := i + 1;
        }
      }
    }

    /** The calls of both members at every cutoff under the current scoring type. */
    ghost function AllMemberCalls(c: Cutoffs): (r: seq<seq<Option<CallType>>>)
      requires Valid()
      reads this
      ensures |r| == 2 && |r[0]| == cutoffs && |r[1]| == cutoffs
    {
      var kaks := lastScoType == Some(KaKs);
      [MemberCalls(members[0], cutoffs, kaks, c), MemberCalls(members[1], cutoffs, kaks, c)]
    }

    /** getSumCoreSize: the summed core size of the listed members at cutoff `i`. */
    method GetSumCoreSize(indices: seq<int>, i: nat) returns (size: int)
      requires Valid() && i < cutoffs
      ensures size == CoreSum(members, indices, i)
    {
      size := 0;
      var j := 0;
      while j < |indices|
        invariant 0 <= j <= |indices|
        invariant size == CoreSum(members, indices[..j], i)
      {
        assert indices[..j + 1][..j] == indices[..j];
        var ind := indices[j];
        if ind == 0 {
          size := size + |members[0].core[i]|;
        } else if ind == 1 {
          size := size + |members[1].core[i]|;
        }
        j := j + 1;
      }
      assert indices[..j] == indices;
    }

    /** hasEnoughCore(indices, i, minCoreSize): the summed core size reaches the minimum. */
    method HasEnoughCore(indices: seq<int>, i: nat, minCoreSize: int) returns (b: bool)
      requires Valid() && i < cutoffs
      ensures b <==> CoreSum(members, indices, i) >= minCoreSize
    {
      var size := GetSumCoreSize(indices, i);
      b := size >= minCoreSize;
    }

    /**
     * getCalls: the members' votes at every cutoff are collected into the four vote maps, then
     * each cutoff's votes are turned into the final call and score.
     */
    method GetCalls(c: Cutoffs) returns (calls: seq<Option<CallType>>)
      requires Valid() && RatiosReadable(0, c) && RatiosReadable(1, c)
      modifies this
      ensures lastScoType == old(lastScoType)
      ensures VotesRecorded(AllMemberCalls(c), cutoffs, bioCalls, xtalCalls, grayCalls, noPredictCalls)
      ensures |calls| == cutoffs && |finalScores| == cutoffs
      ensures forall i :: 0 <= i < cutoffs ==>
        (calls[i], finalScores[i]) == Decision(members, AllMemberCalls(c), i, c)
      ensures forall i :: 0 <= i < cutoffs ==> calls[i].Some? && calls[i].value != NoPrediction
    {
      bioCalls, xtalCalls, grayCalls, noPredictCalls := TallyVotes(c);
      calls, finalScores := DecideAll(bioCalls, xtalCalls, grayCalls, noPredictCalls, c);
    }

    /** The first loop of getCalls: the members' votes at every cutoff. */
    method TallyVotes(c: Cutoffs) returns (bio: map<int, seq<int>>, xtal: map<int, seq<int>>,
                                           gray: map<int, seq<int>>, nopred: map<int, seq<int>>)
      requires Valid() && RatiosReadable(0, c) && RatiosReadable(1, c)
      ensures VotesRecorded(AllMemberCalls(c), cutoffs, bio, xtal, gray, nopred)
    {
      ghost var all := AllMemberCalls(c);
      bio, xtal, gray, nopred := map[], map[], map[], map[];
      var i := 0;
      while i < cutoffs
        invariant 0 <= i <= cutoffs
        invariant VotesRecorded(all, i, bio, xtal, gray, nopred)
      {
        var bios, xtals, grays, nopreds := CastVotes(i, c, all);
        bio, xtal, gray, nopred := bio[i := bios], xtal[i := xtals], gray[i := grays], nopred[i := nopreds];
        i := i + 1;
      }
    }

    /** The second loop of getCalls: every cutoff's votes decide its call and score. */
    method DecideAll(bio: map<int, seq<int>>, xtal: map<int, seq<int>>, gray: map<int, seq<int>>,
                     nopred: map<int, seq<int>>, c: Cutoffs) returns (calls: seq<Option<CallType>>, scores: seq<Score>)
      requires Valid() && VotesRecorded(AllMemberCalls(c), cutoffs, bio, xtal, gray, nopred)
      ensures |calls| == cutoffs && |scores| == cutoffs
      ensures forall i :: 0 <= i < cutoffs ==> (calls[i], scores[i]) == Decision(members, AllMemberCalls(c), i, c)
      ensures forall i :: 0 <= i < cutoffs ==> calls[i].Some? && calls[i].value != NoPrediction
    {
      ghost var all := AllMemberCalls(c);
      calls := seq(cutoffs, _ => None);
      scores := seq(cutoffs, _ => Num(0.0));
      var i := 0;
      while i < cutoffs
        invariant 0 <= i <= cutoffs
        invariant |calls| == cutoffs && |scores| == cutoffs
        invariant forall j :: 0 <= j < i ==> (calls[j], scores[j]) == Decision(members, all, j, c)
        invariant forall j :: 0 <= j < i ==> calls[j].Some? && calls[j].value != NoPrediction
      {
        var call, score := Decide(bio[i], xtal[i], gray[i], nopred[i], i, c, all);
        DecisionNeverNoPrediction(members, all, i, c);
        calls, scores := calls[i := call], scores[i := score];
        i := i + 1;
      }
    }

    /** The inner loop of getCalls over the members: each member's call at cutoff `i` is a vote. */
    method CastVotes(i: nat, c: Cutoffs, ghost all: seq<seq<Option<CallType>>>)
      returns (bios: seq<int>, xtals: seq<int>, grays: seq<int>, nopreds: seq<int>)
      requires Valid() && i < cutoffs
      requires |all| == 2 && |all[0]| == cutoffs && |all[1]| == cutoffs
      requires RatiosReadable(0, c) && RatiosReadable(1, c)
      requires forall k :: 0 <= k < 2 ==> all[k][i] == MemberCall(members[k], i, lastScoType == Some(KaKs), c)
      ensures Tallied(all, i, bios, xtals, grays, nopreds)
    {
      bios, xtals, grays, nopreds := [], [], [], [];
      var k := 0;
      while k < |members|
        invariant 0 <= k <= 2
        invariant Tallied(all[..k], i, bios, xtals, grays, nopreds)
      {
        var memberCalls := GetMemberCalls(k, c);
        assert memberCalls[i] == all[k][i];
        TallyOne(all, k, i, bios, xtals, grays, nopreds);
        bios, xtals, grays, nopreds := AddVote(k, memberCalls[i], bios, xtals, grays, nopreds);
        k := k + 1;
      }
      assert all[..2] == all;
    }

    /** One member's call goes to the list of what it calls; a null call goes nowhere. */
    static method AddVote(k: int, call: Option<CallType>, bios: seq<int>, xtals: seq<int>, grays: seq<int>, nopreds: seq<int>)
      returns (bios': seq<int>, xtals': seq<int>, grays': seq<int>, nopreds': seq<int>)
      ensures bios' == if call == Some(Bio) then bios + [k] else bios
      ensures xtals' == if call == Some(Crystal) then xtals + [k] else xtals
      ensures grays' == if call == Some(Gray) then grays + [k] else grays
      ensures nopreds' == if call == Some(NoPrediction) then nopreds + [k] else nopreds
    {
      bios', xtals', grays', nopreds' := bios, xtals, grays, nopreds;
      if call == Some(Bio) {
        bios' := bios + [k];
      } else if call == Some(Crystal) {
        xtals' := xtals + [k];
      } else if call == Some(Gray) {
        grays' := grays + [k];
      } else if call == Some(NoPrediction) {
        nopreds' := nopreds + [k];
      }
    }

    /** The decision of getCalls at cutoff `i`, from that cutoff's vote lists. */
    method Decide(bios: seq<int>, xtals: seq<int>, grays: seq<int>, nopreds: seq<int>, i: nat, c: Cutoffs,
                  ghost calls: seq<seq<Option<CallType>>>)
      returns (call: Option<CallType>, score: Score)
      requires Valid() && i < cutoffs
      requires |calls| == 2 && i < |calls[0]| && i < |calls[1]|
      requires Tallied(calls, i, bios, xtals, grays, nopreds)
      ensures (call, score) == Decision(members, calls, i, c)
    {
      call, score := None, Num(0.0);
      var countBio, countXtal, countGray, countNoPredict := |bios|, |xtals|, |grays|, |nopreds|;
      if countNoPredict == |members| {
        score := NaN;
        call := Some(NoPrediction);
      }
      if countBio > countXtal {
        score := AverageRatio(members, bios, i);
        call := Some(Bio);
      } else if countXtal > countBio {
        score := AverageRatio(members, xtals, i);
        call := Some(Crystal);
      } else if countGray > countBio + countXtal {
        score := AverageRatio(members, grays, i);
        call := Some(Gray);
      } else if countBio == countXtal {
        var indices := bios + xtals;
        score := AverageRatio(members, indices, i);
        var enough := HasEnoughCore(indices, i, c.minCoreSize);
        if !enough {
          call := Some(Crystal);
        } else if Below(score, c.bio) {
          call := Some(Bio);
        } else if Above(score, c.xtal) {
          call := Some(Crystal);
        } else {
          call := Some(Gray);
        }
      }
    }
  }

  /** Under Ka/Ks scoring a residue failing both checks counts twice. */
  lemma KaKsCountsTwice(residues: seq<Residue>, m: Member, r: Residue)
    requires m.pdbMismatch(r) && m.cdsUnreliable(r)
    ensures UnreliableCount(residues + [r], m, true) == UnreliableCount(residues, m, true) + 2
    ensures UnreliableCount(residues + [r], m, false) == UnreliableCount(residues, m, false) + 1
  {
    FilterAppend(residues, [r], m.pdbMismatch);
    FilterAppend(residues, [r], m.cdsUnreliable);
  }

  /** Under entropy scoring no more residues are unreliable than there are; under Ka/Ks up to twice that. */
  lemma UnreliableCountBounds(residues: seq<Residue>, m: Member)
    ensures UnreliableCount(residues, m, false) <= |residues|
    ensures UnreliableCount(residues, m, true) <= 2 * |residues|
  {
  }
}
