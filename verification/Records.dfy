/** The incremental tally of one voting point: isaac/voterecords.go. */
module Records {
  import opened Base
  import opened Quorum
  import opened VoteCount
  import opened Voteproofs

  /** What a ballot carries into a vote. */
  datatype Ballot = Ballot(fact: BallotFact, sign: FactSign) {
    function Node(): Address {
      sign.node
    }
    function Signed(): SignedBallotFact {
      SignedBallotFact(fact, sign)
    }
  }

  /** The fields of a VoteRecords object, as a value. `tally` is the source's `set`. */
  datatype Record = Record(
    facts: map<Hash, BallotFact>,
    votes: map<Address, Hash>,
    ballots: map<Address, Ballot>,
    voteproof: Voteproof,
    threshold: Threshold,
    tally: seq<Hash>)

  function EmptyVoteproof(point: Point, suffrages: seq<Address>, ratio: real): Voteproof {
    Voteproof(point, suffrages, ratio, NotYet, false, None, [], [], false)
  }

  function NewRecord(point: Point, suffrages: seq<Address>, threshold: Threshold): Record {
    Record(map[], map[], map[], EmptyVoteproof(point, suffrages, threshold.ratio), threshold, [])
  }

  // ---------------------------------------------------------------------------
  // One call of Vote

  /** The record after a voter's first ballot is stored. */
  function WithBallot(r: Record, b: Ballot): Record {
    var h := b.fact.hash;
    r.(ballots := r.ballots[b.Node() := b],
       votes := r.votes[b.Node() := h],
       facts := if h in r.facts then r.facts else r.facts[h := b.fact])
  }

  function Closed(vp: Voteproof): Voteproof {
    if vp.IsFinished() && !vp.closed then vp.(closed := true) else vp
  }

  /** `fs` lists the facts, each key's once. */
  ghost predicate ListsFacts(fs: seq<BallotFact>, facts: map<Hash, BallotFact>) {
    exists hs: seq<Hash> :: ListsFactsOf(fs, facts, hs)
  }

  ghost predicate ListsFactsOf(fs: seq<BallotFact>, facts: map<Hash, BallotFact>, hs: seq<Hash>) {
    && Distinct(hs)
    && |hs| == |fs|
    && (forall h :: h in hs <==> h in facts)
    && (forall i :: 0 <= i < |hs| ==> fs[i] == facts[hs[i]])
  }

  /** `vs` lists the signed facts of the ballots, each voter's once. */
  ghost predicate ListsVotes(vs: seq<SignedBallotFact>, ballots: map<Address, Ballot>) {
    exists ns: seq<Address> :: ListsVotesOf(vs, ballots, ns)
  }

  ghost predicate ListsVotesOf(vs: seq<SignedBallotFact>, ballots: map<Address, Ballot>, ns: seq<Address>) {
    && Distinct(ns)
    && |ns| == |vs|
    && (forall n :: n in ns <==> n in ballots)
    && (forall i :: 0 <= i < |ns| ==> vs[i] == ballots[ns[i]].Signed())
  }

  /** `vp` is the voteproof of `r` after it was finished with `result`. */
  ghost predicate FinishedAs(r: Record, vp: Voteproof, result: VoteResult, majority: Option<BallotFact>) {
    && vp == r.voteproof.(result := result, majority := majority, facts := vp.facts, votes := vp.votes, stamped := true)
    && ListsFacts(vp.facts, r.facts)
    && ListsVotes(vp.votes, r.ballots)
  }

  /** `vp` is what the tally of `r` makes of its voteproof. */
  ghost predicate Tallied(r: Record, vp: Voteproof) {
    exists result, key :: TalliedAs(r, vp, result, key)
  }

  /** A Go map lookup: nil if the key is absent. */
  function Lookup(facts: map<Hash, BallotFact>, key: Hash): Option<BallotFact> {
    if key in facts then Some(facts[key]) else None
  }

  ghost predicate TalliedAs(r: Record, vp: Voteproof, result: VoteResult, key: Hash) {
    && TallyOutcome(r.threshold.total, r.threshold.threshold, r.tally, result, key)
    && match result
       case NotYet => vp == r.voteproof
       case Draw => FinishedAs(r, vp, Draw, r.voteproof.majority)
       case Majority => FinishedAs(r, vp, Majority, Lookup(r.facts, key))
  }

  /** One call of Vote takes the record `r` to `r'`. A new ballot that arrives between finishing and
      closing is stored but never enters the tally; a new ballot after closing is tallied again. */
  ghost predicate VoteStep(r: Record, b: Ballot, r': Record) {
    if b.Node() in r.votes then
      r' == r.(voteproof := Closed(r.voteproof))
    else if r.voteproof.IsFinished() && !r.voteproof.closed then
      r' == WithBallot(r, b).(voteproof := Closed(r.voteproof))
    else
      var counted := WithBallot(r, b).(tally := r.tally + [b.fact.hash]);
      if |counted.tally| < r.threshold.threshold then
        r' == counted
      else
        r' == counted.(voteproof := r'.voteproof) && Tallied(counted, r'.voteproof)
  }

  class VoteRecords {
    var facts: map<Hash, BallotFact>
    var votes: map<Address, Hash>
    var ballots: map<Address, Ballot>
    var voteproof: Voteproof
    var threshold: Threshold
    var tally: seq<Hash>

    ghost function State(): (r: Record)
      reads this
    {
      Record(facts, votes, ballots, voteproof, threshold, tally)
    }

    constructor (point: Point, suffrages: seq<Address>, threshold: Threshold)
      ensures State() == NewRecord(point, suffrages, threshold)
    {
      this.facts, this.votes, this.ballots := map[], map[], map[];
      this.voteproof := EmptyVoteproof(point, suffrages, threshold.ratio);
      this.threshold := threshold;
      this.tally := [];
    }

    method AddBallot(b: Ballot) returns (found: bool)
      modifies this
      ensures found <==> b.Node() in old(votes)
      ensures State() == if found then old(State()) else WithBallot(old(State()), b)
    {
      var n := b.sign.node;
      if n in votes {
        return true;
      }
      ballots := ballots[n := b];
      var h := b.fact.hash;
      votes := votes[n := h];
      if h !in facts {
        facts := facts[h := b.fact];
      }
      return false;
    }

    /** Lists the facts map in whatever order. */
    method ListFacts() returns (fs: seq<BallotFact>)
      ensures ListsFacts(fs, facts)
    {
      fs := [];
      ghost var hs: seq<Hash> := [];
      var rest := facts.Keys;
      while rest != {}
        invariant rest <= facts.Keys
        invariant Distinct(hs) && |hs| == |fs|
        invariant forall h :: h in hs <==> h in facts && h !in rest
        invariant forall i :: 0 <= i < |hs| ==> fs[i] == facts[hs[i]]
        decreases |rest|
      {
        var h :| h in rest;
        fs := fs + [facts[h]];
        hs := hs + [h];
        rest := rest - {h};
      }
      assert ListsFactsOf(fs, facts, hs);
    }

    /** Lists the signed facts of the ballots map in whatever order. */
    method ListVotes() returns (vs: seq<SignedBallotFact>)
      ensures ListsVotes(vs, ballots)
    {
      vs := [];
      ghost var ns: seq<Address> := [];
      var rest := ballots.Keys;
      while rest != {}
        invariant rest <= ballots.Keys
        invariant Distinct(ns) && |ns| == |vs|
        invariant forall n :: n in ns <==> n in ballots && n !in rest
        invariant forall i :: 0 <= i < |ns| ==> vs[i] == ballots[ns[i]].Signed()
        decreases |rest|
      {
        var n :| n in rest;
        vs := vs + [ballots[n].Signed()];
        ns := ns + [n];
        rest := rest - {n};
      }
      assert ListsVotesOf(vs, ballots, ns);
    }

    method FinishVoteproof(result: VoteResult, majority: Option<BallotFact>)
      modifies this`voteproof
      ensures FinishedAs(old(State()), voteproof, result, majority)
    {
      var fs := ListFacts();
      var vs := ListVotes();
      voteproof := voteproof.(result := result, majority := majority, facts := fs, votes := vs, stamped := true);
    }

    method Vote(b: Ballot) returns (vp: Voteproof)
      modifies this
      ensures VoteStep(old(State()), b, State())
      ensures vp == voteproof
    {
      var found := AddBallot(b);
      if found {
        voteproof := Closed(voteproof);
        return voteproof;
      }
      if voteproof.IsFinished() && !voteproof.closed {
        voteproof := voteproof.(closed := true);
        return voteproof;
      }
      tally := tally + [b.fact.hash];
      if |tally| < threshold.threshold {
        return voteproof;
      }
      ghost var counted := State();
      var result, key := FindMajorityFromSlice(threshold.total, threshold.threshold, tally);
      if result == Majority {
        FinishVoteproof(Majority, Lookup(facts, key));
      } else if result == Draw {
        FinishVoteproof(Draw, voteproof.majority);
      }
      assert TalliedAs(counted, voteproof, result, key);
      return voteproof;
    }
  }

  /** A vote either leaves the voteproof as it is up to closing, or finishes it from a tally. */
  lemma StepCases(r: Record, b: Ballot, r': Record) returns (finishes: bool, counted: Record, result: VoteResult, key: Hash)
    requires VoteStep(r, b, r')
    ensures r'.threshold == r.threshold && counted.voteproof == r.voteproof
    ensures !finishes ==> r'.voteproof == r.voteproof || r'.voteproof == r.voteproof.(closed := true)
    ensures finishes ==> r' == counted.(voteproof := r'.voteproof) && |r'.tally| >= r.threshold.threshold
    ensures finishes ==> TalliedAs(counted, r'.voteproof, result, key) && result != NotYet
  {
    counted, finishes, result, key := r, false, NotYet, NO_KEY;
    if b.Node() !in r.votes && (!r.voteproof.IsFinished() || r.voteproof.closed) {
      counted := WithBallot(r, b).(tally := r.tally + [b.fact.hash]);
      if |counted.tally| >= r.threshold.threshold {
        result, key :| TalliedAs(counted, r'.voteproof, result, key);
        finishes := result != NotYet;
      }
    }
  }

  /** Point, suffrage and ratio of the voteproof are as they were. */
  ghost predicate SameIdentity(r: Record, r': Record) {
    && r'.voteproof.point == r.voteproof.point
    && r'.voteproof.suffrages == r.voteproof.suffrages
    && r'.voteproof.ratio == r.voteproof.ratio
    && r'.threshold == r.threshold
  }

  lemma StepKeepsIdentity(r: Record, b: Ballot, r': Record)
    requires VoteStep(r, b, r')
    ensures SameIdentity(r, r')
  {
    var finishes, counted, result, key := StepCases(r, b, r');
  }

  lemma StepKeepsBallots(r: Record, b: Ballot, r': Record)
    requires VoteStep(r, b, r')
    ensures r'.ballots == r.ballots || r'.ballots == r.ballots[b.Node() := b]
  {
  }

  // ---------------------------------------------------------------------------
  // Invariants of a record

  /** `ns` are the distinct voters whose hashes make up the tally. */
  ghost predicate CountedFrom(r: Record, ns: seq<Address>) {
    && Distinct(ns)
    && |ns| == |r.tally|
    && (forall i :: 0 <= i < |ns| ==> ns[i] in r.votes && r.tally[i] == r.votes[ns[i]])
  }

  /** The three maps agree with each other. */
  ghost predicate MapsAgree(r: Record) {
    && r.votes.Keys == r.ballots.Keys
    && (forall n :: n in r.votes ==> r.ballots[n].Node() == n && r.votes[n] == r.ballots[n].fact.hash)
    && r.facts.Keys == r.votes.Values
    && (forall h :: h in r.facts ==> r.facts[h].hash == h)
  }

  /** The tally holds hashes of distinct voters: all of them while the voteproof is not closed. */
  ghost predicate TallyOfVoters(r: Record) {
    exists ns :: CountedFrom(r, ns) && (!r.voteproof.closed ==> |ns| == |r.votes|)
  }

  ghost predicate Consistent(r: Record) {
    MapsAgree(r) && TallyOfVoters(r)
  }

  /** The voters are among `members`, and the threshold is one that all of them can meet. */
  ghost predicate Quorate(r: Record, members: set<Address>) {
    && r.votes.Keys <= members
    && |members| <= r.threshold.total
    && 1 <= r.threshold.threshold <= r.threshold.total
  }

  /** Two quorums overlap. */
  predicate AboveHalf(t: Threshold) {
    t.total < 2 * t.threshold
  }

  /** The voteproof tells what the present tally means. */
  ghost predicate Settled(r: Record) {
    var total, goal, vp := r.threshold.total, r.threshold.threshold, r.voteproof;
    match vp.result
    case Majority => vp.majority.Some? && var h := vp.majority.value.hash;
                     h in r.facts && vp.majority.value == r.facts[h] && CountOf(r.tally, h) >= goal
    case Draw => vp.majority.None? && |r.tally| >= goal && !CanComplete(total, goal, r.tally)
    case NotYet => vp.majority.None? && !vp.closed && !SomeReaches(r.tally, goal)
                   && (|r.tally| < goal || CanComplete(total, goal, r.tally))
  }

  /** The invariants of a record. */
  ghost predicate Sound(r: Record, members: set<Address>) {
    Consistent(r) && Quorate(r, members) && Settled(r)
  }

  lemma NewRecordHolds(point: Point, suffrages: seq<Address>, threshold: Threshold, members: set<Address>)
    requires |members| <= threshold.total
    requires 1 <= threshold.threshold <= threshold.total
    ensures var r := NewRecord(point, suffrages, threshold);
            Sound(r, members)
  {
    var r := NewRecord(point, suffrages, threshold);
    assert CountedFrom(r, []);
  }

  /** Voters of `votes` whose hash is `h`. */
  ghost function Supporters(votes: map<Address, Hash>, h: Hash): set<Address> {
    set n | n in votes && votes[n] == h
  }

  /** Those of the list of voters whose hash is `h`. */
  ghost function Among(ns: seq<Address>, votes: map<Address, Hash>, h: Hash): set<Address> {
    set n | n in ns && n in votes && votes[n] == h
  }

  lemma {:induction false} CountAmong(ns: seq<Address>, votes: map<Address, Hash>, s: seq<Hash>, h: Hash)
    requires Distinct(ns) && |ns| == |s|
    requires forall i :: 0 <= i < |ns| ==> ns[i] in votes && s[i] == votes[ns[i]]
    ensures CountOf(s, h) == |Among(ns, votes, h)|
    decreases |ns|
  {
    if ns == [] {
    } else {
      var last := |ns| - 1;
      var front, node := ns[..last], ns[last];
      assert s == s[..last] + [votes[node]] && ns == front + [node];
      assert node !in front;
      CountAmong(front, votes, s[..last], h);
      CountConcat(s[..last], [votes[node]], h);
      AmongAppend(front, node, votes, h);
    }
  }

  lemma AmongAppend(ns: seq<Address>, n: Address, votes: map<Address, Hash>, h: Hash)
    requires n in votes && n !in ns
    ensures |Among(ns + [n], votes, h)| == |Among(ns, votes, h)| + if votes[n] == h then 1 else 0
  {
    var more := if votes[n] == h then {n} else {};
    assert Among(ns + [n], votes, h) == Among(ns, votes, h) + more;
    assert n !in Among(ns, votes, h);
  }

  /** A tally of distinct voters counts no more for a hash, and no more against it, than all votes do. */
  lemma CountedSupport(r: Record, ns: seq<Address>, h: Hash)
    requires CountedFrom(r, ns)
    ensures CountOf(r.tally, h) == |Among(ns, r.votes, h)|
    ensures CountOf(r.tally, h) <= |Supporters(r.votes, h)|
    ensures |r.tally| - CountOf(r.tally, h) <= |r.votes| - |Supporters(r.votes, h)|
    ensures |ns| == |r.votes| ==> CountOf(r.tally, h) == |Supporters(r.votes, h)|
  {
    CountAmong(ns, r.votes, r.tally, h);
    DistinctSize(ns);
    SplitSizes(Elements(ns), Among(ns, r.votes, h), r.votes.Keys, Supporters(r.votes, h));
  }

  /** Part of a part and the rest of it are no larger than those of the whole. */
  lemma SplitSizes(part: set<Address>, pro: set<Address>, whole: set<Address>, allPro: set<Address>)
    requires part <= whole && allPro <= whole && pro == part * allPro
    ensures |pro| <= |allPro| && |part| - |pro| <= |whole| - |allPro|
    ensures |part| == |whole| ==> |pro| == |allPro|
  {
    SubsetSize(pro, allPro);
    SubsetSize(part - pro, whole - allPro);
    assert |part - pro| == |part| - |pro| by {
      assert part == pro + (part - pro);
    }
    assert |whole - allPro| == |whole| - |allPro| by {
      assert whole == allPro + (whole - allPro);
    }
  }

  /** The same for a list of votes that covers all ballots. */
  lemma ListedSupport(r: Record, vs: seq<SignedBallotFact>, h: Hash)
    requires MapsAgree(r) && ListsVotes(vs, r.ballots)
    ensures |vs| == |r.votes|
    ensures CountOf(VoteHashes(vs), h) == |Supporters(r.votes, h)|
  {
    var ns :| ListsVotesOf(vs, r.ballots, ns);
    var hs := VoteHashes(vs);
    forall i | 0 <= i < |ns| ensures ns[i] in r.votes && hs[i] == r.votes[ns[i]] {
      assert ns[i] in ns;
    }
    CountAmong(ns, r.votes, hs, h);
    AllAmong(ns, r.votes, h);
  }

  lemma AllAmong(ns: seq<Address>, votes: map<Address, Hash>, h: Hash)
    requires Distinct(ns) && forall n :: n in ns <==> n in votes
    ensures Among(ns, votes, h) == Supporters(votes, h) && |ns| == |votes|
  {
    DistinctSize(ns);
    assert Elements(ns) == votes.Keys;
  }

  lemma MapsStayAgreed(r: Record, b: Ballot)
    requires MapsAgree(r) && b.Node() !in r.votes
    ensures MapsAgree(WithBallot(r, b))
  {
    var votes' := r.votes[b.Node() := b.fact.hash];
    assert votes'.Values == r.votes.Values + {b.fact.hash} by {
      forall h | h in r.votes.Values ensures h in votes'.Values {
        var n :| n in r.votes && r.votes[n] == h;
        assert n in votes' && votes'[n] == h;
      }
      assert b.Node() in votes' && votes'[b.Node()] == b.fact.hash;
    }
  }

  lemma VotersStayCounted(r: Record, b: Ballot, r': Record)
    requires TallyOfVoters(r) && VoteStep(r, b, r')
    ensures TallyOfVoters(r')
  {
    var ns :| CountedFrom(r, ns) && (!r.voteproof.closed ==> |ns| == |r.votes|);
    if b.Node() in r.votes || (r.voteproof.IsFinished() && !r.voteproof.closed) {
      assert CountedFrom(r', ns);
    } else {
      ClosedOnlyOnce(r, b, r');
      CountedOneMore(r, ns, b, r');
    }
  }

  lemma CountedOneMore(r: Record, ns: seq<Address>, b: Ballot, r': Record)
    requires CountedFrom(r, ns) && b.Node() !in r.votes
    requires r'.votes == r.votes[b.Node() := b.fact.hash] && r'.tally == r.tally + [b.fact.hash]
    ensures CountedFrom(r', ns + [b.Node()]) && |r'.votes| == |r.votes| + 1
  {
    assert r'.votes.Keys == r.votes.Keys + {b.Node()};
    DistinctAppend(ns, b.Node());
    CountsAppend(r, ns, b, r');
  }

  lemma DistinctAppend(ns: seq<Address>, n: Address)
    requires Distinct(ns) && n !in ns
    ensures Distinct(ns + [n])
  {
  }

  lemma CountsAppend(r: Record, ns: seq<Address>, b: Ballot, r': Record)
    requires CountedFrom(r, ns) && b.Node() !in r.votes
    requires r'.votes == r.votes[b.Node() := b.fact.hash] && r'.tally == r.tally + [b.fact.hash]
    ensures b.Node() !in ns
    ensures var ns' := ns + [b.Node()];
            forall i :: 0 <= i < |ns'| ==> ns'[i] in r'.votes && r'.tally[i] == r'.votes[ns'[i]]
  {
    var ns' := ns + [b.Node()];
    forall i | 0 <= i < |ns| ensures ns'[i] == ns[i] && ns[i] in r.votes && r'.tally[i] == r.votes[ns[i]] {
    }
  }

  /** Counting a ballot leaves the voteproof as open or closed as it was. */
  lemma ClosedOnlyOnce(r: Record, b: Ballot, r': Record)
    requires VoteStep(r, b, r') && b.Node() !in r.votes
    requires !r.voteproof.IsFinished() || r.voteproof.closed
    ensures r'.voteproof.closed == r.voteproof.closed
    ensures r.voteproof.IsFinished() ==> r'.voteproof.IsFinished()
  {
    var finishes, counted, result, key := StepCases(r, b, r');
  }

  /** Every call of Vote keeps the maps and the tally in agreement. */
  lemma StepKeepsConsistent(r: Record, b: Ballot, r': Record)
    requires Consistent(r) && VoteStep(r, b, r')
    ensures Consistent(r')
  {
    VotersStayCounted(r, b, r');
    if b.Node() !in r.votes {
      MapsStayAgreed(r, b);
    }
  }

  lemma StepKeepsQuorate(r: Record, b: Ballot, r': Record, members: set<Address>)
    requires Quorate(r, members) && VoteStep(r, b, r') && b.Node() in members
    ensures Quorate(r', members)
  {
  }

  lemma TallyFits(r: Record, members: set<Address>)
    requires Consistent(r) && Quorate(r, members)
    ensures |r.tally| <= |r.votes| <= |members| <= r.threshold.total
  {
    var ns :| CountedFrom(r, ns);
    DistinctSize(ns);
    SubsetSize(Elements(ns), r.votes.Keys);
    SubsetSize(r.votes.Keys, members);
  }

  /** One more vote keeps a majority and keeps a draw. */
  lemma TallyGrows(total: nat, goal: int, s: seq<Hash>, h: Hash)
    requires |s| + 1 <= total
    ensures forall k :: CountOf(s + [h], k) >= CountOf(s, k)
    ensures !CanComplete(total, goal, s) ==> !CanComplete(total, goal, s + [h])
  {
    forall k ensures CountOf(s, k) <= CountOf(s + [h], k) <= CountOf(s, k) + 1 {
      CountConcat(s, [h], k);
    }
    CompletionByOne(total, goal, s);
    CompletionByOne(total, goal, s + [h]);
    if CanComplete(total, goal, s + [h]) {
      var k :| total - |s + [h]| + CountOf(s + [h], k) >= goal;
      assert total - |s| + CountOf(s, k) >= goal;
    }
  }

  /** A finished voteproof keeps its result, and its majority if twice the threshold exceeds the total. */
  ghost predicate KeepsDecision(r: Record, r': Record) {
    r.voteproof.IsFinished() ==>
      && r'.voteproof.result == r.voteproof.result
      && (AboveHalf(r.threshold) ==> r'.voteproof.majority == r.voteproof.majority)
  }

  /** Every call of Vote leaves the voteproof in step with the tally, and keeps the decision of a
      finished voteproof. */
  lemma StepKeepsSettled(r: Record, b: Ballot, r': Record, members: set<Address>)
    requires Consistent(r) && Quorate(r, members) && Settled(r)
    requires VoteStep(r, b, r') && b.Node() in members
    ensures Settled(r')
    ensures KeepsDecision(r, r')
  {
    if b.Node() !in r.votes && (!r.voteproof.IsFinished() || r.voteproof.closed) {
      CountedFits(r, b, r', members);
      CountedSettles(r, b, r');
    }
  }

  lemma CountedFits(r: Record, b: Ballot, r': Record, members: set<Address>)
    requires Consistent(r) && Quorate(r, members) && VoteStep(r, b, r') && b.Node() in members
    ensures |r'.tally| <= r.threshold.total && r'.threshold == r.threshold
    ensures forall h :: h in r'.facts ==> r'.facts[h].hash == h
    ensures forall h :: h in r'.tally ==> h in r'.facts
  {
    StepKeepsConsistent(r, b, r');
    StepKeepsQuorate(r, b, r', members);
    TallyFits(r', members);
    TallyHasFacts(r');
  }

  lemma CountedSettles(r: Record, b: Ballot, r': Record)
    requires Settled(r) && VoteStep(r, b, r') && |r'.tally| <= r.threshold.total
    requires b.Node() !in r.votes && (!r.voteproof.IsFinished() || r.voteproof.closed)
    requires 1 <= r.threshold.threshold <= r.threshold.total
    requires forall h :: h in r'.facts ==> r'.facts[h].hash == h
    requires forall h :: h in r'.tally ==> h in r'.facts
    ensures Settled(r')
    ensures KeepsDecision(r, r')
  {
    TallyGrows(r.threshold.total, r.threshold.threshold, r.tally, b.fact.hash);
    var counted := WithBallot(r, b).(tally := r.tally + [b.fact.hash]);
    if |counted.tally| < r.threshold.threshold {
      TooFewToReach(counted.tally, r.threshold.threshold);
    } else {
      var result, key :| TalliedAs(counted, r'.voteproof, result, key);
      TalliedSettles(r, counted, r', result, key);
    }
  }

  lemma TallyHasFacts(r: Record)
    requires Consistent(r)
    ensures forall h :: h in r.tally ==> h in r.facts
  {
    var ns :| CountedFrom(r, ns);
    forall h | h in r.tally ensures h in r.facts {
      var i :| 0 <= i < |r.tally| && r.tally[i] == h;
      assert ns[i] in r.votes && r.votes[ns[i]] == h;
    }
  }

  lemma TooFewToReach(s: seq<Hash>, goal: int)
    requires |s| < goal
    ensures !SomeReaches(s, goal)
  {
  }

  lemma TalliedSettles(r: Record, counted: Record, r': Record, result: VoteResult, key: Hash)
    requires Settled(r) && |counted.tally| <= counted.threshold.total
    requires counted.threshold == r.threshold && counted.voteproof == r.voteproof
    requires 1 <= r.threshold.threshold <= r.threshold.total
    requires |counted.tally| >= r.threshold.threshold
    requires forall h :: h in r.facts ==> h in counted.facts && counted.facts[h] == r.facts[h]
    requires forall h :: h in counted.facts ==> counted.facts[h].hash == h
    requires forall h :: h in counted.tally ==> h in counted.facts
    requires forall k :: CountOf(counted.tally, k) >= CountOf(r.tally, k)
    requires !CanComplete(r.threshold.total, r.threshold.threshold, r.tally) ==>
               !CanComplete(r.threshold.total, r.threshold.threshold, counted.tally)
    requires r' == counted.(voteproof := r'.voteproof) && TalliedAs(counted, r'.voteproof, result, key)
    ensures Settled(r')
    ensures KeepsDecision(r, r')
  {
    var total, goal := r.threshold.total, r.threshold.threshold;
    TallyMeaning(total, goal, counted.tally, result, key);
    CompletionByOne(total, goal, counted.tally);
    if r.voteproof.result == Majority {
      var h := r.voteproof.majority.value.hash;
      assert CountOf(counted.tally, h) >= goal;
      assert SomeReaches(counted.tally, goal);
      if h != key && AboveHalf(r.threshold) {
        TwoKeys(counted.tally, h, key);
      }
    }
  }

  // ---------------------------------------------------------------------------
  // Runs of one record

  /** `rs` are the records before, between and after the votes `bs` on a new record. */
  ghost predicate Run(rs: seq<Record>, bs: seq<Ballot>) {
    && |rs| == |bs| + 1
    && rs[0] == NewRecord(rs[0].voteproof.point, rs[0].voteproof.suffrages, rs[0].threshold)
    && forall i :: 0 <= i < |bs| ==> StepAt(rs, bs, i)
  }

  /** The vote number `i` of a run. */
  ghost predicate StepAt(rs: seq<Record>, bs: seq<Ballot>, i: nat)
    requires i < |bs| && |rs| == |bs| + 1
  {
    VoteStep(rs[i], bs[i], rs[i + 1])
  }

  /** All ballots come from `members`, and the threshold can be met. */
  ghost predicate QuorateRun(rs: seq<Record>, bs: seq<Ballot>, members: set<Address>) {
    && Run(rs, bs)
    && (forall i :: 0 <= i < |bs| ==> bs[i].Node() in members)
    && |members| <= rs[0].threshold.total
    && 1 <= rs[0].threshold.threshold <= rs[0].threshold.total
  }

  lemma {:induction false} RunHolds(rs: seq<Record>, bs: seq<Ballot>, members: set<Address>, i: nat)
    requires QuorateRun(rs, bs, members) && i < |rs|
    ensures Sound(rs[i], members)
    ensures rs[i].threshold == rs[0].threshold
  {
    if i == 0 {
      NewRecordHolds(rs[0].voteproof.point, rs[0].voteproof.suffrages, rs[0].threshold, members);
    } else {
      RunHolds(rs, bs, members, i - 1);
      assert StepAt(rs, bs, i - 1);
      StepKeepsAll(rs[i - 1], bs[i - 1], rs[i], members);
    }
  }

  lemma StepKeepsAll(r: Record, b: Ballot, r': Record, members: set<Address>)
    requires Sound(r, members) && VoteStep(r, b, r') && b.Node() in members
    ensures Sound(r', members) && r'.threshold == r.threshold
  {
    StepKeepsConsistent(r, b, r');
    StepKeepsQuorate(r, b, r', members);
    StepKeepsSettled(r, b, r', members);
  }

  lemma {:induction false} RunKeepsIdentity(rs: seq<Record>, bs: seq<Ballot>, i: nat)
    requires Run(rs, bs) && i < |rs|
    ensures SameIdentity(rs[0], rs[i])
  {
    if i > 0 {
      RunKeepsIdentity(rs, bs, i - 1);
      assert StepAt(rs, bs, i - 1);
      StepKeepsIdentity(rs[i - 1], bs[i - 1], rs[i]);
    }
  }

  /** In every run over a suffrage no larger than the total, the unsigned `total - sum + lead` of the
      draw test never wraps. */
  lemma DrawTestNeverWraps(rs: seq<Record>, bs: seq<Ballot>, members: set<Address>, i: nat, lead: nat)
    requires QuorateRun(rs, bs, members) && i < |rs| && IsLead(rs[i].tally, lead)
    ensures var total := rs[i].threshold.total; Wrap(total - |rs[i].tally| + lead) == total - |rs[i].tally| + lead
  {
    RunHolds(rs, bs, members, i);
    TallyFits(rs[i], members);
    LeadFits(rs[i].threshold.total, rs[i].tally);
  }

  /** At most one ballot is missing from the tally: one that came between finishing and closing. */
  ghost predicate AllButOneCounted(r: Record) {
    |r.tally| <= |r.votes| <= |r.tally| + if r.voteproof.closed then 1 else 0
  }

  lemma StepCounts(r: Record, b: Ballot, r': Record)
    requires AllButOneCounted(r) && VoteStep(r, b, r')
    ensures AllButOneCounted(r')
  {
    if b.Node() !in r.votes {
      assert r'.votes == r.votes[b.Node() := b.fact.hash];
      assert r'.votes.Keys == r.votes.Keys + {b.Node()};
      if !r.voteproof.IsFinished() || r.voteproof.closed {
        ClosedOnlyOnce(r, b, r');
      }
    }
  }

  /** Every ballot of every voter is counted, also those after closing, except at most one in the life of the
      record. */
  lemma {:induction false} AtMostOneUncounted(rs: seq<Record>, bs: seq<Ballot>, i: nat)
    requires Run(rs, bs) && i < |rs|
    ensures AllButOneCounted(rs[i])
  {
    if i > 0 {
      AtMostOneUncounted(rs, bs, i - 1);
      assert StepAt(rs, bs, i - 1);
      StepCounts(rs[i - 1], bs[i - 1], rs[i]);
    }
  }

  /** A late voter, whose ballot comes after closing, is listed in the voteproof from then on: the recount lists
      all ballots again. */
  lemma LateVoteIsListed(rs: seq<Record>, bs: seq<Ballot>, members: set<Address>, i: nat)
    requires QuorateRun(rs, bs, members) && i < |bs|
    requires rs[i].voteproof.closed && bs[i].Node() !in rs[i].votes
    ensures ListsVotes(rs[i + 1].voteproof.votes, rs[i + 1].ballots)
    ensures bs[i].Signed() in rs[i + 1].voteproof.votes
  {
    RunHolds(rs, bs, members, i);
    RunHolds(rs, bs, members, i + 1);
    LifeCycle(rs, bs, i, i + 1);
    assert StepAt(rs, bs, i);
    var r, b, r' := rs[i], bs[i], rs[i + 1];
    AtMostOneUncounted(rs, bs, i + 1);
    LateVoteTallied(r, b, r', members);
    var vs := r'.voteproof.votes;
    var ns :| ListsVotesOf(vs, r'.ballots, ns);
    assert b.Node() in ns;
    var k :| 0 <= k < |ns| && ns[k] == b.Node();
    assert vs[k] == b.Signed();
  }

  /** A ballot of the list has this fact and this signature. */
  ghost predicate Sent(bs: seq<Ballot>, v: SignedBallotFact) {
    exists b :: b in bs && b.fact == v.fact && b.sign == v.sign
  }

  /** Nothing is made up: every ballot that a record stores, and every signed fact that its voteproof lists, is one
      that was voted, with its own fact and signature. */
  lemma {:induction false} ListedWasSent(rs: seq<Record>, bs: seq<Ballot>, i: nat)
    requires Run(rs, bs) && i < |rs|
    ensures forall n :: n in rs[i].ballots ==> rs[i].ballots[n] in bs
    ensures forall v :: v in rs[i].voteproof.votes ==> Sent(bs, v)
  {
    if i > 0 {
      ListedWasSent(rs, bs, i - 1);
      assert StepAt(rs, bs, i - 1) && bs[i - 1] in bs;
      StepLists(rs[i - 1], bs[i - 1], rs[i], bs);
    }
  }

  lemma StepLists(r: Record, b: Ballot, r': Record, bs: seq<Ballot>)
    requires VoteStep(r, b, r') && b in bs
    requires forall n :: n in r.ballots ==> r.ballots[n] in bs
    requires forall v :: v in r.voteproof.votes ==> Sent(bs, v)
    ensures forall n :: n in r'.ballots ==> r'.ballots[n] in bs
    ensures forall v :: v in r'.voteproof.votes ==> Sent(bs, v)
  {
    StepKeepsBallots(r, b, r');
    assert forall n :: n in r'.ballots ==> r'.ballots[n] == b || (n in r.ballots && r'.ballots[n] == r.ballots[n]);
    var finishes, counted, result, key := StepCases(r, b, r');
    if finishes {
      assert r'.ballots == counted.ballots;
      FinishingLists(counted, r'.voteproof, result, key);
      ListedSent(r'.voteproof.votes, r'.ballots, bs);
    }
  }

  lemma FinishingLists(r: Record, vp: Voteproof, result: VoteResult, key: Hash)
    requires TalliedAs(r, vp, result, key) && result != NotYet
    ensures ListsVotes(vp.votes, r.ballots)
  {
  }

  lemma ListedSent(vs: seq<SignedBallotFact>, ballots: map<Address, Ballot>, bs: seq<Ballot>)
    requires ListsVotes(vs, ballots) && forall n :: n in ballots ==> ballots[n] in bs
    ensures forall v :: v in vs ==> Sent(bs, v)
  {
    var ns :| ListsVotesOf(vs, ballots, ns);
    forall v | v in vs ensures Sent(bs, v) {
      var j :| 0 <= j < |ns| && vs[j] == v;
      assert ns[j] in ballots && ballots[ns[j]] in bs;
    }
  }

  lemma LateVoteTallied(r: Record, b: Ballot, r': Record, members: set<Address>)
    requires VoteStep(r, b, r') && r.voteproof.closed && b.Node() !in r.votes
    requires Sound(r, members) && Sound(r', members) && r.voteproof.IsFinished()
    ensures ListsVotes(r'.voteproof.votes, r'.ballots) && r'.ballots == r.ballots[b.Node() := b]
  {
    var counted := WithBallot(r, b).(tally := r.tally + [b.fact.hash]);
    FinishedHasQuorum(r);
    var result, key :| TalliedAs(counted, r'.voteproof, result, key);
    TallyFits(r', members);
    TallyMeaning(r.threshold.total, r.threshold.threshold, counted.tally, result, key);
    TallyGrows(r.threshold.total, r.threshold.threshold, r.tally, b.fact.hash);
    FinishedStaysDecided(r, b.fact.hash);
  }

  /** A decision needs a quorum of counted votes. */
  lemma FinishedHasQuorum(r: Record)
    requires Settled(r) && r.voteproof.IsFinished()
    ensures |r.tally| >= r.threshold.threshold
  {
  }

  /** With one more vote a finished record is still decided one way or the other. */
  lemma FinishedStaysDecided(r: Record, h: Hash)
    requires Settled(r) && r.voteproof.IsFinished() && 1 <= r.threshold.threshold && |r.tally| + 1 <= r.threshold.total
    ensures SomeReaches(r.tally + [h], r.threshold.threshold)
            || !CanComplete(r.threshold.total, r.threshold.threshold, r.tally + [h])
  {
    TallyGrows(r.threshold.total, r.threshold.threshold, r.tally, h);
    if r.voteproof.result == Majority {
      var k := r.voteproof.majority.value.hash;
      assert CountOf(r.tally + [h], k) >= r.threshold.threshold;
      assert k in r.tally + [h];
    }
  }

  /** Every record can take every ballot. */
  lemma StepExists(r: Record, b: Ballot) returns (r': Record)
    ensures VoteStep(r, b, r')
  {
    if b.Node() in r.votes {
      r' := r.(voteproof := Closed(r.voteproof));
    } else if r.voteproof.IsFinished() && !r.voteproof.closed {
      r' := WithBallot(r, b).(voteproof := Closed(r.voteproof));
    } else {
      var counted := WithBallot(r, b).(tally := r.tally + [b.fact.hash]);
      r' := counted;
      if |counted.tally| >= r.threshold.threshold {
        var result, key := TallyExists(r.threshold.total, r.threshold.threshold, counted.tally);
        if result != NotYet {
          var majority := if result == Majority then Lookup(counted.facts, key) else r.voteproof.majority;
          var vp := FinishExists(counted, result, majority);
          r' := counted.(voteproof := vp);
        }
        assert TalliedAs(counted, r'.voteproof, result, key);
      }
    }
  }

  lemma FinishExists(r: Record, result: VoteResult, majority: Option<BallotFact>) returns (vp: Voteproof)
    ensures FinishedAs(r, vp, result, majority)
  {
    var hs := ListSet(r.facts.Keys);
    var ns := ListSet(r.ballots.Keys);
    var fs := seq(|hs|, i requires 0 <= i < |hs| => r.facts[hs[i]]);
    var vs := seq(|ns|, i requires 0 <= i < |ns| => r.ballots[ns[i]].Signed());
    vp := r.voteproof.(result := result, majority := majority, facts := fs, votes := vs, stamped := true);
    assert ListsFactsOf(fs, r.facts, hs);
    assert ListsVotesOf(vs, r.ballots, ns);
  }

  lemma RunExtends(rs: seq<Record>, bs: seq<Ballot>, b: Ballot, r': Record)
    requires Run(rs, bs) && VoteStep(rs[|bs|], b, r')
    ensures Run(rs + [r'], bs + [b])
  {
    forall i | 0 <= i < |bs + [b]| ensures StepAt(rs + [r'], bs + [b], i) {
      if i < |bs| {
        assert StepAt(rs, bs, i);
      }
    }
  }

  /** Every sequence of ballots has a run. */
  lemma {:induction false} RunExists(point: Point, suffrages: seq<Address>, threshold: Threshold, bs: seq<Ballot>)
    returns (rs: seq<Record>)
    ensures Run(rs, bs) && rs[0] == NewRecord(point, suffrages, threshold)
    decreases |bs|
  {
    if bs == [] {
      rs := [NewRecord(point, suffrages, threshold)];
    } else {
      var front, b := bs[..|bs| - 1], bs[|bs| - 1];
      var before := RunExists(point, suffrages, threshold, front);
      var r' := StepExists(before[|front|], b);
      RunExtends(before, front, b, r');
      rs := before + [r'];
      assert front + [b] == bs;
    }
  }

  /** Stability: once finished, no later sequence of votes changes the result, even through the recounts
      that run after closing; nor the majority, if twice the threshold exceeds the total. */
  lemma {:induction false} Stability(rs: seq<Record>, bs: seq<Ballot>, members: set<Address>, i: nat, j: nat)
    requires QuorateRun(rs, bs, members) && i <= j < |rs|
    requires rs[i].voteproof.IsFinished()
    ensures rs[j].voteproof.result == rs[i].voteproof.result
    ensures AboveHalf(rs[0].threshold) ==> rs[j].voteproof.majority == rs[i].voteproof.majority
    decreases j
  {
    if i < j {
      Stability(rs, bs, members, i, j - 1);
      StepInRun(rs, bs, members, j - 1);
    }
  }

  /** Every vote of a run keeps the decision. */
  lemma StepInRun(rs: seq<Record>, bs: seq<Ballot>, members: set<Address>, i: nat)
    requires QuorateRun(rs, bs, members) && i < |bs|
    ensures KeepsDecision(rs[i], rs[i + 1]) && rs[i].threshold == rs[0].threshold
  {
    RunHolds(rs, bs, members, i);
    assert StepAt(rs, bs, i);
    StepKeepsSettled(rs[i], bs[i], rs[i + 1], members);
  }

  /** In step with the life cycle: a voteproof that is finished stays finished, and one that is closed
      stays closed and was finished. */
  lemma {:induction false} LifeCycle(rs: seq<Record>, bs: seq<Ballot>, i: nat, j: nat)
    requires Run(rs, bs) && i <= j < |rs|
    ensures rs[i].voteproof.closed ==> rs[j].voteproof.closed
    ensures rs[i].voteproof.IsFinished() ==> rs[j].voteproof.IsFinished()
    ensures rs[i].voteproof.IsFinished() && i < j ==> rs[j].voteproof.closed
    ensures rs[j].voteproof.closed ==> rs[j].voteproof.IsFinished()
    decreases j
  {
    if j == 0 {
    } else {
      LifeCycle(rs, bs, if i < j then i else j - 1, j - 1);
      var r, b, r' := rs[j - 1], bs[j - 1], rs[j];
      assert StepAt(rs, bs, j - 1);
      if b.Node() !in r.votes && (!r.voteproof.IsFinished() || r.voteproof.closed) {
        ClosedOnlyOnce(r, b, r');
      }
    }
  }

  /** Single hand-over: of all calls in a run, at most one returns a voteproof that is finished and
      not closed, and closing never reverts. */
  lemma SingleHandOver(rs: seq<Record>, bs: seq<Ballot>, i: nat, j: nat)
    requires Run(rs, bs) && i < |bs| && j < |bs|
    requires rs[i + 1].voteproof.IsFinished() && !rs[i + 1].voteproof.closed
    requires rs[j + 1].voteproof.IsFinished() && !rs[j + 1].voteproof.closed
    ensures i == j
  {
    if i < j {
      LifeCycle(rs, bs, i + 1, j + 1);
    } else if j < i {
      LifeCycle(rs, bs, j + 1, i + 1);
    }
  }

  // ---------------------------------------------------------------------------
  // Progress

  lemma {:induction false} VotesStay(rs: seq<Record>, bs: seq<Ballot>, i: nat, j: nat)
    requires Run(rs, bs) && i < j < |rs|
    ensures bs[i].Node() in rs[j].votes
    decreases j
  {
    assert StepAt(rs, bs, j - 1);
    if i < j - 1 {
      VotesStay(rs, bs, i, j - 1);
    }
  }

  lemma {:induction false} VotesComeFromBallots(rs: seq<Record>, bs: seq<Ballot>, i: nat)
    requires Run(rs, bs) && i < |rs|
    ensures forall n :: n in rs[i].votes ==> exists b :: b in bs && b.Node() == n && b.fact.hash == rs[i].votes[n]
  {
    if i > 0 {
      VotesComeFromBallots(rs, bs, i - 1);
      var r, b, r' := rs[i - 1], bs[i - 1], rs[i];
      assert StepAt(rs, bs, i - 1) && b in bs;
      forall n | n in r'.votes ensures exists b :: b in bs && b.Node() == n && b.fact.hash == r'.votes[n] {
        if n in r.votes {
          assert r'.votes[n] == r.votes[n];
        } else {
          assert n == b.Node() && r'.votes[n] == b.fact.hash;
        }
      }
    }
  }

  /** A record whose members of `agreeing`, a quorum, all vote `h` cannot have drawn, nor chosen
      otherwise if the other members are no quorum. */
  lemma AgreeingPrevail(r: Record, members: set<Address>, agreeing: set<Address>, h: Hash)
    requires Consistent(r) && Quorate(r, members) && Settled(r)
    requires agreeing <= members && |agreeing| >= r.threshold.threshold
    requires forall n :: n in agreeing && n in r.votes ==> r.votes[n] == h
    ensures r.voteproof.result != Draw
    ensures r.voteproof.result == Majority && |members - agreeing| < r.threshold.threshold ==>
              r.voteproof.majority.value.hash == h
    ensures agreeing <= r.votes.Keys ==> r.voteproof.result == Majority
  {
    var total, goal := r.threshold.total, r.threshold.threshold;
    TallyFits(r, members);
    var ns :| CountedFrom(r, ns) && (!r.voteproof.closed ==> |ns| == |r.votes|);
    CountedSupport(r, ns, h);
    DrawNeedsDissent(r, ns, members, agreeing, h);
    if r.voteproof.result == Majority {
      var k := r.voteproof.majority.value.hash;
      if k != h {
        CountedSupport(r, ns, k);
        SubsetSize(Supporters(r.votes, k), members - agreeing);
      }
    }
    if agreeing <= r.votes.Keys {
      SubsetSize(agreeing, Supporters(r.votes, h));
      assert !r.voteproof.closed ==> CountOf(r.tally, h) >= goal;
      assert CountOf(r.tally, h) >= goal ==> SomeReaches(r.tally, goal);
    }
  }

  lemma DrawNeedsDissent(r: Record, ns: seq<Address>, members: set<Address>, agreeing: set<Address>, h: Hash)
    requires CountedFrom(r, ns) && |r.tally| <= r.threshold.total
    requires r.votes.Keys <= members && |members| <= r.threshold.total
    requires agreeing <= members && |agreeing| >= r.threshold.threshold
    requires forall n :: n in agreeing && n in r.votes ==> r.votes[n] == h
    ensures CanComplete(r.threshold.total, r.threshold.threshold, r.tally)
  {
    var heard := Elements(ns);
    DistinctSize(ns);
    CountedSupport(r, ns, h);
    SubsetSize(agreeing * heard, Among(ns, r.votes, h));
    SubsetSize(agreeing - heard, members - heard);
    assert |agreeing| == |agreeing * heard| + |agreeing - heard|;
    assert |members - heard| == |members| - |heard|;
    CompletionByOne(r.threshold.total, r.threshold.threshold, r.tally);
    assert r.threshold.total - |r.tally| + CountOf(r.tally, h) >= r.threshold.threshold;
  }

  /** Progress: if at least a quorum of members vote only for `h` and all of them are heard, in any
      order and mixed with any ballots of the others, the record ends with MAJORITY on `h`; on the way
      it never draws and never finishes otherwise. */
  lemma Progress(rs: seq<Record>, bs: seq<Ballot>, members: set<Address>, agreeing: set<Address>, h: Hash)
    requires QuorateRun(rs, bs, members) && AboveHalf(rs[0].threshold)
    requires agreeing <= members && |agreeing| >= rs[0].threshold.threshold
    requires forall b :: b in bs && b.Node() in agreeing ==> b.fact.hash == h
    requires forall n :: n in agreeing ==> exists i :: 0 <= i < |bs| && bs[i].Node() == n
    ensures var vp := rs[|bs|].voteproof; vp.result == Majority && vp.majority.Some? && vp.majority.value.hash == h
    ensures forall i :: 0 <= i < |rs| ==> rs[i].voteproof.result != Draw
    ensures forall i :: 0 <= i < |rs| && rs[i].voteproof.IsFinished() ==>
              rs[i].voteproof.majority == rs[|bs|].voteproof.majority
  {
    forall i | 0 <= i < |rs|
      ensures rs[i].voteproof.result != Draw
      ensures i == |bs| ==> rs[i].voteproof.result == Majority && Settled(rs[i]) && rs[i].voteproof.majority.value.hash == h
    {
      RunHolds(rs, bs, members, i);
      VotesComeFromBallots(rs, bs, i);
      if i == |bs| {
        forall n | n in agreeing ensures n in rs[i].votes {
          var j :| 0 <= j < |bs| && bs[j].Node() == n;
          VotesStay(rs, bs, j, i);
        }
      }
      AgreeingPrevail(rs[i], members, agreeing, h);
      assert |members - agreeing| == |members| - |agreeing|;
    }
    forall i | 0 <= i < |rs| && rs[i].voteproof.IsFinished()
      ensures rs[i].voteproof.majority == rs[|bs|].voteproof.majority
    {
      Stability(rs, bs, members, i, |bs|);
    }
  }
}
