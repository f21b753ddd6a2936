/** Who stands behind a majority that the validator of voteproofs accepts: base/voteproof_v0.go. */
module Backing {
  import opened Base
  import opened Quorum
  import opened VoteCount
  import opened Voteproofs

  /** The vote is for `h`, by one of the members. */
  ghost predicate VotesFor(v: SignedBallotFact, members: seq<Address>, h: Hash) {
    v.fact.hash == h && v.sign.node in members
  }

  /** The members that signed `h`. */
  ghost function Backers(votes: seq<SignedBallotFact>, members: seq<Address>, h: Hash): set<Address> {
    set v | v in votes && VotesFor(v, members, h) :: v.sign.node
  }

  /** The votes for `h` that are not by a member, or not the member's first. */
  ghost function Surplus(votes: seq<SignedBallotFact>, members: seq<Address>, h: Hash): nat {
    if votes == [] then 0
    else
      var front, last := votes[..|votes| - 1], votes[|votes| - 1];
      Surplus(front, members, h) +
      if last.fact.hash == h && (last.sign.node !in members || last.sign.node in Backers(front, members, h)) then 1 else 0
  }

  lemma BackersAppend(front: seq<SignedBallotFact>, v: SignedBallotFact, members: seq<Address>, h: Hash)
    ensures Backers(front + [v], members, h) == Backers(front, members, h) + if VotesFor(v, members, h) then {v.sign.node} else {}
  {
    assert forall u :: u in front + [v] <==> u in front || u == v;
  }

  lemma {:induction false} BackersPlusSurplus(votes: seq<SignedBallotFact>, members: seq<Address>, h: Hash)
    ensures |Backers(votes, members, h)| + Surplus(votes, members, h) == CountOf(VoteHashes(votes), h)
    decreases |votes|
  {
    if votes == [] {
      assert Backers(votes, members, h) == {};
    } else {
      var front, last := votes[..|votes| - 1], votes[|votes| - 1];
      assert votes == front + [last];
      BackersPlusSurplus(front, members, h);
      BackersAppend(front, last, members, h);
      HashesAppend(front, last, h);
      SurplusAppend(front, last, members, h);
      SizeWith(Backers(front, members, h), last.sign.node);
    }
  }

  lemma SurplusAppend(front: seq<SignedBallotFact>, v: SignedBallotFact, members: seq<Address>, h: Hash)
    ensures Surplus(front + [v], members, h) == Surplus(front, members, h) +
              if v.fact.hash == h && (v.sign.node !in members || v.sign.node in Backers(front, members, h)) then 1 else 0
  {
    assert (front + [v])[..|front|] == front;
  }

  lemma SizeWith(s: set<Address>, n: Address)
    ensures |s + {n}| == |s| + if n in s then 0 else 1
  {
    if n in s {
      assert s + {n} == s;
    }
  }

  lemma HashesAppend(front: seq<SignedBallotFact>, v: SignedBallotFact, h: Hash)
    ensures CountOf(VoteHashes(front + [v]), h) == CountOf(VoteHashes(front), h) + if v.fact.hash == h then 1 else 0
  {
    assert VoteHashes(front + [v]) == VoteHashes(front) + [v.fact.hash];
    CountConcat(VoteHashes(front), [v.fact.hash], h);
  }

  /** Each vote is by a member, and each member votes once. */
  ghost predicate SingleVotes(votes: seq<SignedBallotFact>, members: seq<Address>) {
    && (forall i :: 0 <= i < |votes| ==> votes[i].sign.node in members)
    && (forall i, j :: 0 <= i < j < |votes| ==> votes[i].sign.node != votes[j].sign.node)
  }

  lemma {:induction false} SingleVotesNoSurplus(votes: seq<SignedBallotFact>, members: seq<Address>, h: Hash)
    requires SingleVotes(votes, members)
    ensures Surplus(votes, members, h) == 0
    decreases |votes|
  {
    if votes != [] {
      var front, last := votes[..|votes| - 1], votes[|votes| - 1];
      SingleVotesNoSurplus(front, members, h);
      forall v | v in front ensures v.sign.node != last.sign.node {
        var i :| 0 <= i < |front| && front[i] == v;
        assert votes[i] == v;
      }
    }
  }

  /** A quorum of the suffrage stands behind the majority. */
  ghost predicate Backed(vp: Voteproof, t: Threshold)
    requires vp.majority.Some?
  {
    |Backers(vp.votes, vp.suffrages, vp.majority.value.hash)| >= t.threshold
  }

  /** A majority whose votes are by members, once each, is backed if it has a quorum of votes. */
  lemma SingleVotesBacked(vp: Voteproof, t: Threshold)
    requires vp.result == Majority && Justified(vp, t) && SingleVotes(vp.votes, vp.suffrages)
    ensures Backed(vp, t)
  {
    var h := vp.majority.value.hash;
    SingleVotesNoSurplus(vp.votes, vp.suffrages, h);
    BackersPlusSurplus(vp.votes, vp.suffrages, h);
  }

  // ---------------------------------------------------------------------------
  // What acceptance says of the nodes

  /** A voteproof of a suffrage that claims a majority and passes every check of its own. */
  ghost predicate AcceptedMajority(vp: Voteproof, suffrages: seq<Address>, ratio: real) {
    && vp.suffrages == suffrages && vp.ratio == ratio && |suffrages| < UINT_MODULUS
    && vp.result == Majority && vp.majority.Some?
    && Acceptable(vp)
  }

  /** NodeIsInSuffrage: every vote is by a member. */
  predicate SignersInside(vp: Voteproof) {
    forall i :: 0 <= i < |vp.votes| ==> vp.votes[i].sign.node in vp.suffrages
  }

  /** Whatever is accepted is backed, with and without the check that signers are members. */
  ghost predicate AcceptedIsBacked(suffrages: seq<Address>, ratio: real, t: Threshold) {
    forall vp :: AcceptedMajority(vp, suffrages, ratio) ==> Backed(vp, t)
  }

  ghost predicate AcceptedInsideIsBacked(suffrages: seq<Address>, ratio: real, t: Threshold) {
    forall vp :: AcceptedMajority(vp, suffrages, ratio) && SignersInside(vp) ==> Backed(vp, t)
  }

  /** A quorum of votes by one node. */
  ghost function VotesOf(suffrages: seq<Address>, ratio: real, t: Threshold, n: Address): Voteproof {
    var f := BallotFact(Hash("fact"), Point(0, 0, STAGE_INIT), "", true);
    Voteproof(f.point, suffrages, ratio, Majority, false, Some(f), [f],
              seq(t.threshold, _ => SignedBallotFact(f, FactSign(n, true))), true)
  }

  lemma VotesOfAccepted(suffrages: seq<Address>, ratio: real, t: Threshold, n: Address)
    requires |suffrages| < UINT_MODULUS && NewThreshold(|suffrages|, ratio) == Ok(t)
    ensures AcceptedMajority(VotesOf(suffrages, ratio, t, n), suffrages, ratio)
    ensures Backers(VotesOf(suffrages, ratio, t, n).votes, suffrages, Hash("fact")) <= {n}
  {
    var vp := VotesOf(suffrages, ratio, t, n);
    QuorumComplement(|suffrages|, ratio);
    RepeatedVote(vp.votes, vp.votes[0], t.threshold);
    assert HasFact(vp.facts, Hash("fact")) by {
      assert vp.facts[0] in vp.facts;
    }
  }

  /** The validator counts votes, not nodes. With signers checked to be members, acceptance guarantees a
      quorum of distinct nodes exactly in the suffrages whose quorum is a single node. */
  lemma BackedExactly(suffrages: seq<Address>, ratio: real, t: Threshold)
    requires |suffrages| < UINT_MODULUS && NewThreshold(|suffrages|, ratio) == Ok(t)
    ensures AcceptedInsideIsBacked(suffrages, ratio, t) <==> t.threshold == 1
  {
    QuorumComplement(|suffrages|, ratio);
    if t.threshold == 1 {
      forall vp | AcceptedMajority(vp, suffrages, ratio) && SignersInside(vp) ensures Backed(vp, t) {
        OneBacker(vp, vp.majority.value.hash);
      }
    } else {
      var n := suffrages[0];
      var vp := VotesOf(suffrages, ratio, t, n);
      VotesOfAccepted(suffrages, ratio, t, n);
      SubsetSize(Backers(vp.votes, suffrages, Hash("fact")), {n});
      assert AcceptedMajority(vp, suffrages, ratio) && SignersInside(vp) && !Backed(vp, t);
    }
  }

  lemma OneBacker(vp: Voteproof, h: Hash)
    requires SignersInside(vp) && CountOf(VoteHashes(vp.votes), h) >= 1
    ensures |Backers(vp.votes, vp.suffrages, h)| >= 1
  {
    var i :| 0 <= i < |vp.votes| && VoteHashes(vp.votes)[i] == h;
    assert vp.votes[i] in vp.votes && VotesFor(vp.votes[i], vp.suffrages, h);
    SubsetSize({vp.votes[i].sign.node}, Backers(vp.votes, vp.suffrages, h));
  }

  /** Without that check acceptance never guarantees it: in every suffrage a quorum of votes of a stranger is
      accepted. */
  lemma StrangersNotBacked(suffrages: seq<Address>, ratio: real, t: Threshold)
    requires |suffrages| < UINT_MODULUS && NewThreshold(|suffrages|, ratio) == Ok(t)
    ensures !AcceptedIsBacked(suffrages, ratio, t)
  {
    var n := Stranger(suffrages);
    var vp := VotesOf(suffrages, ratio, t, n);
    QuorumComplement(|suffrages|, ratio);
    VotesOfAccepted(suffrages, ratio, t, n);
    assert Backers(vp.votes, suffrages, Hash("fact")) == {};
    assert AcceptedMajority(vp, suffrages, ratio) && !Backed(vp, t);
  }

  /** Somebody outside of a list of nodes: a name longer than all of theirs. */
  lemma {:induction false} LongName(nodes: seq<Address>) returns (name: string)
    ensures forall n :: n in nodes ==> |n.text| < |name|
    decreases |nodes|
  {
    if nodes == [] {
      name := "n";
    } else {
      var shorter := LongName(nodes[..|nodes| - 1]);
      name := shorter + nodes[|nodes| - 1].text + "n";
    }
  }

  lemma Stranger(nodes: seq<Address>) returns (n: Address)
    ensures n !in nodes
  {
    var name := LongName(nodes);
    n := Address(name);
  }

  lemma {:induction false} RepeatedVote(votes: seq<SignedBallotFact>, v: SignedBallotFact, n: nat)
    requires |votes| == n >= 1 && forall i :: 0 <= i < n ==> votes[i] == v
    ensures CountOf(VoteHashes(votes), v.fact.hash) == n
    ensures Elements(VoteHashes(votes)) == {v.fact.hash}
    decreases n
  {
    var hs := VoteHashes(votes);
    assert hs[0] == v.fact.hash;
    var front := votes[..n - 1];
    assert hs == VoteHashes(front) + [v.fact.hash];
    CountConcat(VoteHashes(front), [v.fact.hash], v.fact.hash);
    if n > 1 {
      RepeatedVote(front, v, n - 1);
    }
  }
}
