/** Voteproofs and their validation: base/voteproof_v0.go. */
module Voteproofs {
  import opened Base
  import opened Quorum
  import opened VoteCount

  /** A ballot fact. `content` stands for what the hash need not determine (an ACCEPT fact hash does
      not cover the proposal); `valid` for the checks on the fact alone. */
  datatype BallotFact = BallotFact(hash: Hash, point: Point, content: string, valid: bool)

  /** A node's signature on a fact; `valid` stands for the signature verification. */
  datatype FactSign = FactSign(node: Address, valid: bool)

  datatype SignedBallotFact = SignedBallotFact(fact: BallotFact, sign: FactSign)

  /** `stamped` tells whether the finishing time was set. */
  datatype Voteproof = Voteproof(
    point: Point,
    suffrages: seq<Address>,
    ratio: real,
    result: VoteResult,
    closed: bool,
    majority: Option<BallotFact>,
    facts: seq<BallotFact>,
    votes: seq<SignedBallotFact>,
    stamped: bool)
  {
    predicate IsFinished() {
      result != NotYet
    }
  }

  function VoteHashes(votes: seq<SignedBallotFact>): (hs: seq<Hash>)
    ensures |hs| == |votes|
    ensures forall i :: 0 <= i < |votes| ==> hs[i] == votes[i].fact.hash
  {
    seq(|votes|, i requires 0 <= i < |votes| => votes[i].fact.hash)
  }

  predicate ValidFields(vp: Voteproof) {
    && vp.point.height >= PRE_GENESIS_HEIGHT
    && vp.point.stage in {STAGE_INIT, STAGE_PROPOSAL, STAGE_ACCEPT}
    && ValidRatio(vp.ratio)
    && vp.stamped
    && vp.result != NotYet
    && (vp.majority.None? ==> vp.result == Draw)
    && (vp.majority.Some? ==> vp.majority.value.valid)
    && |vp.facts| >= 1
    && |vp.votes| >= 1
  }

  ghost predicate HasFact(facts: seq<BallotFact>, h: Hash) {
    exists f :: f in facts && f.hash == h
  }

  ghost predicate VoteInOrder(facts: seq<BallotFact>, v: SignedBallotFact) {
    v.fact.valid && v.sign.valid && HasFact(facts, v.fact.hash)
  }

  /** Votes and facts match each other. */
  ghost predicate FactsConsistent(vp: Voteproof) {
    && (forall v :: v in vp.votes ==> VoteInOrder(vp.facts, v))
    && |Elements(VoteHashes(vp.votes))| == |vp.facts|
    && (forall f :: f in vp.facts ==> f.valid)
  }

  method FindFact(facts: seq<BallotFact>, h: Hash) returns (found: bool)
    ensures found <==> HasFact(facts, h)
  {
    for i := 0 to |facts|
      invariant forall j :: 0 <= j < i ==> facts[j].hash != h
    {
      if facts[i].hash == h {
        return true;
      }
    }
    return false;
  }

  /** The first loop of isValidFacts: whether every vote is in order, and if so the voted hashes. */
  method CheckVotes(facts: seq<BallotFact>, votes: seq<SignedBallotFact>) returns (ok: bool, hashes: set<Hash>)
    ensures ok <==> forall v :: v in votes ==> VoteInOrder(facts, v)
    ensures ok ==> hashes == Elements(VoteHashes(votes))
  {
    hashes := {};
    ghost var hs := VoteHashes(votes);
    for i := 0 to |votes|
      invariant forall j :: 0 <= j < i ==> VoteInOrder(facts, votes[j])
      invariant hashes == Elements(hs[..i])
    {
      var v := votes[i];
      assert v in votes;
      if !v.fact.valid || !v.sign.valid {
        return false, {};
      }
      var found := FindFact(facts, v.fact.hash);
      if !found {
        return false, {};
      }
      assert hs[..i + 1] == hs[..i] + [v.fact.hash];
      ElementsAppend(hs[..i], v.fact.hash);
      hashes := hashes + {v.fact.hash};
    }
    assert hs[..|votes|] == hs;
    return true, hashes;
  }

  /** isValidFacts. */
  method IsValidFacts(vp: Voteproof) returns (ok: bool)
    ensures ok <==> FactsConsistent(vp)
  {
    var inOrder, factHashes := CheckVotes(vp.facts, vp.votes);
    if !inOrder {
      return false;
    }
    if |factHashes| != |vp.facts| {
      return false;
    }
    for i := 0 to |vp.facts|
      invariant forall j :: 0 <= j < i ==> vp.facts[j].valid
    {
      if !vp.facts[i].valid {
        assert vp.facts[i] in vp.facts;
        return false;
      }
    }
    return true;
  }

  /** The outcomes that the recount may compute from the votes. It takes the first count in map
      order that reaches the threshold, which need not be the largest. */
  ghost predicate RecountOutcome(t: Threshold, s: seq<Hash>, result: VoteResult, key: Hash) {
    if result == Majority then key in s && CountOf(s, key) >= Min(t.threshold, t.total)
    else TallyOutcome(t.total, t.threshold, s, result, key)
  }

  /** The comparison of a recount with what the voteproof claims. */
  ghost predicate RecountMatches(vp: Voteproof, result: VoteResult, key: Hash) {
    && vp.result == result
    && if result == Majority && HasFact(vp.facts, key)
       then vp.majority.Some? && vp.majority.value.hash == key
       else vp.majority.None?
  }

  method Recount(t: Threshold, s: seq<Hash>) returns (result: VoteResult, key: Hash)
    ensures RecountOutcome(t, s, result, key)
  {
    var counts := CountKeys(s);
    var byCount, list, keys := ListCounts(s, counts);
    var slots := new nat[|list|](i requires 0 <= i < |list| => list[i]);
    assert slots[..] == list;
    var index := FindMajority(t.total, t.threshold, slots);
    if index == NOT_YET {
      DecidedTally(t.total, t.threshold, s, keys, list, index);
      return NotYet, NO_KEY;
    } else if index == DRAW {
      DecidedTally(t.total, t.threshold, s, keys, list, index);
      return Draw, NO_KEY;
    } else {
      assert slots[index] in list;
      return Majority, byCount[slots[index]];
    }
  }

  /** isValidCheckMajority. */
  method IsValidCheckMajority(vp: Voteproof, t: Threshold) returns (ok: bool)
    ensures exists result, key ::
              RecountOutcome(t, VoteHashes(vp.votes), result, key) && (ok <==> RecountMatches(vp, result, key))
  {
    var result, key := Recount(t, VoteHashes(vp.votes));
    if vp.result != result {
      return false;
    }
    var found := false;
    if result == Majority {
      found := FindFact(vp.facts, key);
    }
    if found {
      ok := vp.majority.Some? && vp.majority.value.hash == key;
    } else {
      ok := vp.majority.None?;
    }
  }

  /** The claim of a voteproof is true of its votes. */
  ghost predicate Justified(vp: Voteproof, t: Threshold) {
    var s := VoteHashes(vp.votes);
    match vp.result
    case Majority => vp.majority.Some? && CountOf(s, vp.majority.value.hash) >= t.threshold
    case Draw => vp.majority.None? && !CanComplete(t.total, t.threshold, s)
    case NotYet => false
  }

  /** With no more votes than voters and a threshold above one half, every recount gives the same
      verdict, namely whether the claim is true. */
  lemma RecountIsJustice(vp: Voteproof, t: Threshold, result: VoteResult, key: Hash)
    requires t.threshold <= t.total < 2 * t.threshold && |vp.votes| <= t.total
    requires vp.IsFinished() && FactsConsistent(vp)
    requires RecountOutcome(t, VoteHashes(vp.votes), result, key)
    ensures RecountMatches(vp, result, key) <==> Justified(vp, t)
  {
    var s := VoteHashes(vp.votes);
    if result == Majority {
      var i :| 0 <= i < |s| && s[i] == key;
      assert vp.votes[i] in vp.votes;
      assert HasFact(vp.facts, key);
      CompletionByOne(t.total, t.threshold, s);
      assert CanComplete(t.total, t.threshold, s);
      if vp.result == Majority && vp.majority.Some? && vp.majority.value.hash != key {
        TwoKeys(s, key, vp.majority.value.hash);
      }
    } else {
      TallyMeaning(t.total, t.threshold, s, result, key);
      if vp.result == Majority && vp.majority.Some? {
        var h := vp.majority.value.hash;
        assert CountOf(s, h) >= t.threshold ==> SomeReaches(s, t.threshold);
      }
    }
  }

  /** Every check of a voteproof, with its suffrage and ratio in place of the threshold: fields and
      facts are in order, there is a quorum of votes, and what it claims is true of them. */
  ghost predicate Acceptable(vp: Voteproof)
    requires |vp.suffrages| < UINT_MODULUS
  {
    && ValidFields(vp)
    && FactsConsistent(vp)
    && NewThreshold(|vp.suffrages|, vp.ratio).Ok?
    && var t := NewThreshold(|vp.suffrages|, vp.ratio).value;
       t.threshold <= |vp.votes| && Justified(vp, t)
  }

  /** No more votes than voters, and a threshold above one half. */
  ghost predicate Decisive(vp: Voteproof)
    requires |vp.suffrages| < UINT_MODULUS
  {
    NewThreshold(|vp.suffrages|, vp.ratio).Ok? ==>
      |vp.votes| <= |vp.suffrages| < 2 * NewThreshold(|vp.suffrages|, vp.ratio).value.threshold
  }

  ghost predicate Voted(votes: seq<SignedBallotFact>, h: Hash) {
    exists i :: 0 <= i < |votes| && votes[i].fact.hash == h
  }

  ghost predicate Listed(facts: seq<BallotFact>, h: Hash) {
    exists j :: 0 <= j < |facts| && facts[j].hash == h
  }

  /** The facts are exactly those voted for, each once, and every fact, voted fact and signature is valid. */
  ghost predicate ListsInOrder(vp: Voteproof) {
    && (forall i :: 0 <= i < |vp.votes| ==> vp.votes[i].fact.valid && vp.votes[i].sign.valid)
    && (forall j :: 0 <= j < |vp.facts| ==> vp.facts[j].valid)
    && (forall i, j :: 0 <= i < j < |vp.facts| ==> vp.facts[i].hash != vp.facts[j].hash)
    && (forall h :: Voted(vp.votes, h) <==> Listed(vp.facts, h))
  }

  ghost predicate FieldsInOrder(vp: Voteproof) {
    && |vp.votes| > 0
    && vp.point.height >= -1 && (vp.point.stage == 1 || vp.point.stage == 2 || vp.point.stage == 3)
    && 1.0 <= vp.ratio <= 100.0
    && vp.stamped
    && (vp.result == Majority || vp.result == Draw)
    && (vp.result == Majority ==> vp.majority.Some?)
    && (vp.majority.Some? ==> vp.majority.value.valid)
  }

  /** What is in order about a voteproof that passes the checks of its fields and facts. */
  ghost predicate InOrder(vp: Voteproof) {
    FieldsInOrder(vp) && ListsInOrder(vp)
  }

  ghost function FactHashes(facts: seq<BallotFact>): (hs: seq<Hash>)
    ensures |hs| == |facts|
    ensures forall i :: 0 <= i < |facts| ==> hs[i] == facts[i].hash
  {
    seq(|facts|, i requires 0 <= i < |facts| => facts[i].hash)
  }

  /** A list with as many elements as its set has no repetition. */
  lemma {:induction false} FullSizeDistinct(hs: seq<Hash>)
    requires |Elements(hs)| >= |hs|
    ensures Distinct(hs) && |Elements(hs)| == |hs|
    decreases |hs|
  {
    if hs != [] {
      var front, last := hs[..|hs| - 1], hs[|hs| - 1];
      ElementsAppend(front, last);
      assert hs == front + [last];
      ElementsSize(front);
      FullSizeDistinct(front);
      assert last !in Elements(front);
    }
  }

  lemma {:induction false} ElementsSize(hs: seq<Hash>)
    ensures |Elements(hs)| <= |hs|
    decreases |hs|
  {
    if hs != [] {
      var front, last := hs[..|hs| - 1], hs[|hs| - 1];
      ElementsSize(front);
      ElementsAppend(front, last);
      assert hs == front + [last];
    }
  }

  /** If every voted hash is listed and there are as many facts as voted hashes, the facts are those voted for,
      each once. */
  lemma CountMatches(facts: seq<BallotFact>, votes: seq<SignedBallotFact>)
    requires forall v :: v in votes ==> HasFact(facts, v.fact.hash)
    requires |Elements(VoteHashes(votes))| == |facts|
    ensures Distinct(FactHashes(facts)) && Elements(FactHashes(facts)) == Elements(VoteHashes(votes))
  {
    var fs, vs := FactHashes(facts), VoteHashes(votes);
    assert Elements(vs) <= Elements(fs) by {
      forall h | h in Elements(vs) ensures h in Elements(fs) {
        var i :| 0 <= i < |vs| && vs[i] == h;
        assert votes[i] in votes;
        var f :| f in facts && f.hash == h;
        var j :| 0 <= j < |facts| && facts[j] == f;
        assert fs[j] == h;
      }
    }
    SubsetSize(Elements(vs), Elements(fs));
    FullSizeDistinct(fs);
    var more := Elements(fs) - Elements(vs);
    assert |more| == |Elements(fs)| - |Elements(vs)|;
  }

  /** The checks of fields and facts pass exactly if the voteproof is in order. */
  lemma InOrderExactly(vp: Voteproof)
    ensures ValidFields(vp) && FactsConsistent(vp) <==> InOrder(vp)
  {
    if ValidFields(vp) && FactsConsistent(vp) {
      ConsistentInOrder(vp);
    }
    if InOrder(vp) {
      InOrderConsistent(vp);
    }
  }

  lemma ListedIsHash(facts: seq<BallotFact>, h: Hash)
    ensures Listed(facts, h) <==> h in Elements(FactHashes(facts))
    ensures Listed(facts, h) <==> HasFact(facts, h)
  {
    var fs := FactHashes(facts);
    if h in fs {
      var j :| 0 <= j < |fs| && fs[j] == h;
      assert facts[j].hash == h;
    }
    if j :| 0 <= j < |facts| && facts[j].hash == h {
      assert fs[j] == h && facts[j] in facts;
    }
  }

  lemma VotedIsHash(votes: seq<SignedBallotFact>, h: Hash)
    ensures Voted(votes, h) <==> h in Elements(VoteHashes(votes))
  {
    var vs := VoteHashes(votes);
    if h in vs {
      var i :| 0 <= i < |vs| && vs[i] == h;
      assert votes[i].fact.hash == h;
    }
    if i :| 0 <= i < |votes| && votes[i].fact.hash == h {
      assert vs[i] == h;
    }
  }

  lemma ConsistentInOrder(vp: Voteproof)
    requires ValidFields(vp) && FactsConsistent(vp)
    ensures InOrder(vp)
  {
    CountMatches(vp.facts, vp.votes);
    forall h ensures Voted(vp.votes, h) <==> Listed(vp.facts, h) {
      VotedIsHash(vp.votes, h);
      ListedIsHash(vp.facts, h);
    }
    forall i | 0 <= i < |vp.votes| ensures vp.votes[i].fact.valid && vp.votes[i].sign.valid {
      assert vp.votes[i] in vp.votes;
    }
    var fs := FactHashes(vp.facts);
    forall i, j | 0 <= i < j < |vp.facts| ensures vp.facts[i].hash != vp.facts[j].hash {
      assert fs[i] != fs[j];
    }
  }

  lemma InOrderConsistent(vp: Voteproof)
    requires InOrder(vp)
    ensures ValidFields(vp) && FactsConsistent(vp)
  {
    var fs, vs := FactHashes(vp.facts), VoteHashes(vp.votes);
    forall v | v in vp.votes ensures VoteInOrder(vp.facts, v) {
      var i :| 0 <= i < |vp.votes| && vp.votes[i] == v;
      assert Voted(vp.votes, v.fact.hash);
      ListedIsHash(vp.facts, v.fact.hash);
    }
    forall h ensures h in Elements(fs) <==> h in Elements(vs) {
      VotedIsHash(vp.votes, h);
      ListedIsHash(vp.facts, h);
    }
    assert Elements(fs) == Elements(vs);
    assert Distinct(fs);
    DistinctSize(fs);
    assert Voted(vp.votes, vp.votes[0].fact.hash);
    assert |vp.facts| >= 1;
  }

  /** Tampering with one vote of any voteproof, so that its signature or fact is invalid or its fact is not
      listed, makes it unacceptable. */
  lemma TamperedVoteRefused(vp: Voteproof, i: nat, v: SignedBallotFact)
    requires |vp.suffrages| < UINT_MODULUS && i < |vp.votes|
    requires !v.sign.valid || !v.fact.valid || !Listed(vp.facts, v.fact.hash)
    ensures !Acceptable(vp.(votes := vp.votes[i := v]))
  {
    var tampered := vp.(votes := vp.votes[i := v]);
    assert tampered.votes[i] == v;
    assert Voted(tampered.votes, v.fact.hash);
    InOrderExactly(tampered);
  }

  /** IsValid. Whatever the map order, a decisive voteproof is accepted exactly if it is acceptable. */
  method IsValid(vp: Voteproof) returns (ok: bool)
    requires |vp.suffrages| < UINT_MODULUS
    ensures ok ==> InOrder(vp) && NewThreshold(|vp.suffrages|, vp.ratio).Ok?
                   && |vp.votes| >= NewThreshold(|vp.suffrages|, vp.ratio).value.threshold
    ensures Decisive(vp) ==> (ok <==> Acceptable(vp))
  {
    if !ValidFields(vp) {
      return false;
    }
    var facts := IsValidFacts(vp);
    if !facts {
      return false;
    }
    InOrderExactly(vp);
    var made := NewThreshold(|vp.suffrages|, vp.ratio);
    if made.Err? {
      return false;
    }
    var t := made.value;
    if |vp.votes| < t.threshold {
      return vp.result == NotYet;
    }
    ok := IsValidCheckMajority(vp, t);
    QuorumComplement(|vp.suffrages|, vp.ratio);
    if Decisive(vp) {
      ghost var result, key :| RecountOutcome(t, VoteHashes(vp.votes), result, key) && (ok <==> RecountMatches(vp, result, key));
      RecountIsJustice(vp, t, result, key);
    }
  }
}
