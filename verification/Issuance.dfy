/** The voteproofs that a record issues against the validator of voteproofs:
    isaac/voterecords.go and base/voteproof_v0.go. */
module Issuance {
  import opened Base
  import opened Quorum
  import opened VoteCount
  import opened Voteproofs
  import opened Backing
  import opened Records

  /** Everything a record has stored passed its own checks. */
  ghost predicate AllValid(r: Record) {
    && (forall n :: n in r.ballots ==> r.ballots[n].fact.valid && r.ballots[n].sign.valid)
    && (forall h :: h in r.facts ==> r.facts[h].valid)
  }

  /** What holds of a voteproof from the moment it is finished. */
  ghost predicate Issued(vp: Voteproof, t: Threshold) {
    && SingleVotes(vp.votes, vp.suffrages)
    && vp.stamped
    && FactsConsistent(vp)
    && t.threshold <= |vp.votes| <= t.total
    && Justified(vp, t)
    && (vp.majority.Some? ==> vp.majority.value.valid)
  }

  // ---------------------------------------------------------------------------
  // At the moment of finishing

  lemma ListedValues(ns: seq<Address>, votes: map<Address, Hash>, hs: seq<Hash>)
    requires |ns| == |hs| && forall n :: n in ns <==> n in votes
    requires forall i :: 0 <= i < |ns| ==> ns[i] in votes && hs[i] == votes[ns[i]]
    ensures Elements(hs) == votes.Values
  {
    forall h | h in votes.Values ensures h in Elements(hs) {
      var n :| n in votes && votes[n] == h;
      assert n in ns;
      var i :| 0 <= i < |ns| && ns[i] == n;
      assert hs[i] == h;
    }
  }

  lemma VotedHashes(r: Record, vs: seq<SignedBallotFact>)
    requires MapsAgree(r) && ListsVotes(vs, r.ballots)
    ensures Elements(VoteHashes(vs)) == r.facts.Keys
  {
    var ns :| ListsVotesOf(vs, r.ballots, ns);
    var hs := VoteHashes(vs);
    forall i | 0 <= i < |ns| ensures ns[i] in r.votes && hs[i] == r.votes[ns[i]] {
      assert ns[i] in ns;
    }
    ListedValues(ns, r.votes, hs);
  }

  lemma ListedFacts(fs: seq<BallotFact>, facts: map<Hash, BallotFact>)
    requires ListsFacts(fs, facts)
    requires forall h :: h in facts ==> facts[h].hash == h && facts[h].valid
    ensures |fs| == |facts.Keys|
    ensures forall f :: f in fs ==> f.valid
    ensures forall h :: h in facts ==> HasFact(fs, h)
  {
    var ks :| ListsFactsOf(fs, facts, ks);
    DistinctSize(ks);
    assert Elements(ks) == facts.Keys;
    forall f | f in fs ensures f.valid {
      var j :| 0 <= j < |fs| && fs[j] == f;
      assert ks[j] in ks;
    }
    forall h | h in facts ensures HasFact(fs, h) {
      var j :| 0 <= j < |ks| && ks[j] == h;
      assert fs[j] in fs;
    }
  }

  lemma FinishedFacts(r: Record, vp: Voteproof, result: VoteResult, majority: Option<BallotFact>)
    requires MapsAgree(r) && AllValid(r) && FinishedAs(r, vp, result, majority)
    ensures FactsConsistent(vp)
  {
    VotedHashes(r, vp.votes);
    ListedFacts(vp.facts, r.facts);
    var hs := VoteHashes(vp.votes);
    var ns :| ListsVotesOf(vp.votes, r.ballots, ns);
    forall v | v in vp.votes ensures VoteInOrder(vp.facts, v) {
      var i :| 0 <= i < |vp.votes| && vp.votes[i] == v;
      assert ns[i] in ns;
      assert hs[i] in Elements(hs);
    }
  }

  /** `hs` counts at least as much as `s` for every hash, and at least as much against it. */
  ghost predicate Extends(s: seq<Hash>, hs: seq<Hash>) {
    forall h :: CountOf(s, h) <= CountOf(hs, h) && |s| - CountOf(s, h) <= |hs| - CountOf(hs, h)
  }

  lemma DrawExtends(total: nat, goal: int, s: seq<Hash>, hs: seq<Hash>)
    requires Extends(s, hs) && |s| <= total && |hs| <= total
    requires !CanComplete(total, goal, s)
    ensures !CanComplete(total, goal, hs)
  {
    CompletionByOne(total, goal, s);
    CompletionByOne(total, goal, hs);
    forall h ensures total - |hs| + CountOf(hs, h) < goal {
      assert total - |s| + CountOf(s, h) < goal;
    }
  }

  lemma BallotsExtendTally(r: Record, vs: seq<SignedBallotFact>)
    requires Consistent(r) && ListsVotes(vs, r.ballots)
    ensures Extends(r.tally, VoteHashes(vs)) && |vs| == |r.votes|
  {
    var ns :| CountedFrom(r, ns);
    forall h
      ensures CountOf(r.tally, h) <= CountOf(VoteHashes(vs), h)
      ensures |r.tally| - CountOf(r.tally, h) <= |vs| - CountOf(VoteHashes(vs), h)
    {
      CountedSupport(r, ns, h);
      ListedSupport(r, vs, h);
    }
    ListedSupport(r, vs, NO_KEY);
  }

  /** The votes listed are those of distinct members. */
  lemma FinishedSingle(r: Record)
    requires MapsAgree(r) && r.votes.Keys <= Elements(r.voteproof.suffrages) && ListsVotes(r.voteproof.votes, r.ballots)
    ensures SingleVotes(r.voteproof.votes, r.voteproof.suffrages)
  {
    var vs := r.voteproof.votes;
    var ns :| ListsVotesOf(vs, r.ballots, ns);
    forall i | 0 <= i < |vs| ensures vs[i].sign.node == ns[i] && ns[i] in r.voteproof.suffrages {
      assert ns[i] in ns && ns[i] in r.votes.Keys;
    }
  }

  /** All ballots together, including one that the tally may have missed, still bear out the result. */
  lemma FinishedClaim(r: Record, members: set<Address>)
    requires Consistent(r) && Quorate(r, members) && Settled(r)
    requires r.voteproof.IsFinished() && |r.tally| >= r.threshold.threshold
    requires ListsVotes(r.voteproof.votes, r.ballots)
    ensures Justified(r.voteproof, r.threshold)
    ensures r.threshold.threshold <= |r.voteproof.votes| <= r.threshold.total
  {
    TallyFits(r, members);
    BallotsExtendTally(r, r.voteproof.votes);
    if r.voteproof.result == Draw {
      DrawExtends(r.threshold.total, r.threshold.threshold, r.tally, VoteHashes(r.voteproof.votes));
    }
  }

  // ---------------------------------------------------------------------------
  // Along a run

  lemma StepKeepsValid(r: Record, b: Ballot, r': Record)
    requires AllValid(r) && VoteStep(r, b, r') && b.fact.valid && b.sign.valid
    ensures AllValid(r')
  {
  }

  lemma FinishIssues(r: Record, counted: Record, result: VoteResult, key: Hash, members: set<Address>)
    requires Consistent(r) && Quorate(r, members) && Settled(r) && AllValid(r)
    requires r == counted.(voteproof := r.voteproof) && |r.tally| >= r.threshold.threshold
    requires TalliedAs(counted, r.voteproof, result, key) && result != NotYet
    requires members == Elements(r.voteproof.suffrages)
    ensures Issued(r.voteproof, r.threshold)
  {
    FinishedSingle(r);
    FinishedFacts(counted, r.voteproof, result, r.voteproof.majority);
    FinishedClaim(r, members);
  }

  lemma ClosingKeepsIssued(vp: Voteproof, t: Threshold)
    requires Issued(vp, t)
    ensures Issued(vp.(closed := true), t)
  {
    var vp' := vp.(closed := true);
    assert VoteHashes(vp'.votes) == VoteHashes(vp.votes);
  }

  lemma StepKeepsIssued(r: Record, b: Ballot, r': Record, members: set<Address>)
    requires Consistent(r') && Quorate(r', members) && Settled(r') && AllValid(r')
    requires VoteStep(r, b, r') && members == Elements(r'.voteproof.suffrages)
    requires r.voteproof.IsFinished() ==> Issued(r.voteproof, r.threshold)
    ensures r'.voteproof.IsFinished() ==> Issued(r'.voteproof, r'.threshold)
  {
    var finishes, counted, result, key := StepCases(r, b, r');
    if finishes {
      FinishIssues(r', counted, result, key, members);
    } else if r.voteproof.IsFinished() {
      ClosingKeepsIssued(r.voteproof, r.threshold);
    }
  }

  /** What a record with valid ballots keeps: everything stored is valid, and what is finished is issued. */
  ghost predicate Issues(r: Record) {
    AllValid(r) && (r.voteproof.IsFinished() ==> Issued(r.voteproof, r.threshold))
  }

  lemma StepKeepsIssues(r: Record, b: Ballot, r': Record, members: set<Address>)
    requires Issues(r) && VoteStep(r, b, r') && b.fact.valid && b.sign.valid
    requires Sound(r', members) && members == Elements(r.voteproof.suffrages)
    ensures Issues(r')
  {
    StepKeepsValid(r, b, r');
    StepKeepsIdentity(r, b, r');
    StepKeepsIssued(r, b, r', members);
  }

  lemma {:induction false} RunIssues(rs: seq<Record>, bs: seq<Ballot>, members: set<Address>, i: nat)
    requires QuorateRun(rs, bs, members) && i < |rs| && members == Elements(rs[0].voteproof.suffrages)
    requires forall b :: b in bs ==> b.fact.valid && b.sign.valid
    ensures Issues(rs[i])
    decreases i
  {
    if i > 0 {
      RunIssues(rs, bs, members, i - 1);
      IssuesAt(rs, bs, members, i - 1);
    }
  }

  lemma IssuesAt(rs: seq<Record>, bs: seq<Ballot>, members: set<Address>, i: nat)
    requires QuorateRun(rs, bs, members) && i < |bs| && members == Elements(rs[0].voteproof.suffrages)
    requires bs[i].fact.valid && bs[i].sign.valid && Issues(rs[i])
    ensures Issues(rs[i + 1])
  {
    RunHolds(rs, bs, members, i + 1);
    RunKeepsIdentity(rs, bs, i);
    assert StepAt(rs, bs, i);
    StepKeepsIssues(rs[i], bs[i], rs[i + 1], members);
  }

  /** A run over a suffrage of distinct nodes, with the threshold built from it, and valid ballots. */
  ghost predicate SuffrageRun(rs: seq<Record>, bs: seq<Ballot>, suffrages: seq<Address>, ratio: real, t: Threshold, point: Point) {
    && |suffrages| < UINT_MODULUS && Distinct(suffrages) && NewThreshold(|suffrages|, ratio) == Ok(t)
    && Run(rs, bs) && rs[0] == NewRecord(point, suffrages, t)
    && point.height >= PRE_GENESIS_HEIGHT && CanVote(point.stage)
    && forall b :: b in bs ==> b.Node() in suffrages && b.fact.valid && b.sign.valid
  }

  lemma SuffrageRunIssues(rs: seq<Record>, bs: seq<Ballot>, suffrages: seq<Address>, ratio: real, t: Threshold, point: Point, i: nat)
    requires SuffrageRun(rs, bs, suffrages, ratio, t, point)
    requires i < |rs| && rs[i].voteproof.IsFinished()
    ensures var vp := rs[i].voteproof;
            Issued(vp, t) && vp.point == point && vp.suffrages == suffrages && vp.ratio == ratio
            && (vp.result == Majority ==> vp.majority.Some?)
  {
    var members := Elements(suffrages);
    DistinctSize(suffrages);
    QuorumComplement(|suffrages|, ratio);
    assert QuorateRun(rs, bs, members) by {
      forall j | 0 <= j < |bs| ensures bs[j].Node() in members {
        assert bs[j] in bs;
      }
    }
    RunHolds(rs, bs, members, i);
    RunKeepsIdentity(rs, bs, i);
    RunIssues(rs, bs, members, i);
  }

  /** Producer and validator agree: in every run over a suffrage of distinct nodes whose threshold was
      built from that suffrage and a ratio above one half, every finished voteproof, at its first
      finish or after any later vote, is decisive and acceptable, so IsValid accepts it. */
  lemma IssuedIsAccepted(rs: seq<Record>, bs: seq<Ballot>, suffrages: seq<Address>, ratio: real, t: Threshold, point: Point, i: nat)
    requires SuffrageRun(rs, bs, suffrages, ratio, t, point) && AboveHalf(t)
    requires i < |rs| && rs[i].voteproof.IsFinished()
    ensures |rs[i].voteproof.suffrages| < UINT_MODULUS
    ensures Decisive(rs[i].voteproof) && Acceptable(rs[i].voteproof)
  {
    SuffrageRunIssues(rs, bs, suffrages, ratio, t, point, i);
    QuorumComplement(|suffrages|, ratio);
    IssuedAccepted(rs[i].voteproof, t);
  }

  lemma IssuedAccepted(vp: Voteproof, t: Threshold)
    requires |vp.suffrages| < UINT_MODULUS && NewThreshold(|vp.suffrages|, vp.ratio) == Ok(t)
    requires 1 <= t.threshold <= t.total == |vp.suffrages| && AboveHalf(t) && ValidRatio(vp.ratio)
    requires Issued(vp, t) && vp.IsFinished() && (vp.result == Majority ==> vp.majority.Some?)
    requires vp.point.height >= PRE_GENESIS_HEIGHT && CanVote(vp.point.stage)
    ensures Decisive(vp) && Acceptable(vp)
  {
    var hs := VoteHashes(vp.votes);
    assert hs[0] in Elements(hs);
  }

  /** And it is backed: a quorum of distinct suffrage nodes signed the majority, at every ratio. */
  lemma IssuedIsBacked(rs: seq<Record>, bs: seq<Ballot>, suffrages: seq<Address>, ratio: real, t: Threshold, point: Point, i: nat)
    requires SuffrageRun(rs, bs, suffrages, ratio, t, point)
    requires i < |rs| && rs[i].voteproof.result == Majority
    ensures rs[i].voteproof.majority.Some? && Backed(rs[i].voteproof, t)
  {
    SuffrageRunIssues(rs, bs, suffrages, ratio, t, point, i);
    var vp := rs[i].voteproof;
    SingleVotesBacked(vp, t);
  }
}
