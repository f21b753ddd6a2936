/** How far the guarantees of the vote reach: what happens at the very edge of their conditions. */
module Limits {
  import opened Base
  import opened Quorum
  import opened VoteCount
  import opened Voteproofs
  import opened Records
  import opened Issuance

  // ---------------------------------------------------------------------------
  // Counting: more votes than the total

  /** DRAW is what it should be: no key has reached the threshold and no way of casting outstanding votes
      lets one reach it. */
  ghost predicate DrawMeansHopeless(total: Uint, threshold: Uint, s: seq<Key>, result: VoteResult) {
    var goal := Min(threshold, total);
    result == Draw <==> !SomeReaches(s, goal) && !CanComplete(total, goal, s)
  }

  /** Exactly when DRAW is reported as it should be, for every list shorter than 2^64 (as every Go slice
      is): if some key has reached the threshold, or there are at most as many votes as the total and the
      largest count together. With more, the unsigned subtraction wraps and a hopeless list is NOT-YET. */
  lemma DrawExactly(total: Uint, threshold: Uint, s: seq<Key>, m: nat, result: VoteResult, key: Key)
    requires |s| < UINT_MODULUS && IsLead(s, m)
    requires TallyOutcome(total, threshold, s, result, key)
    ensures DrawMeansHopeless(total, threshold, s, result) <==> SomeReaches(s, Min(threshold, total)) || |s| <= total + m
    ensures !SomeReaches(s, Min(threshold, total)) && |s| > total + m ==> result == NotYet
  {
    var goal := Min(threshold, total);
    if |s| <= total {
      TallyMeaning(total, threshold, s, result, key);
      CompletionByOne(total, goal, s);
      assert SomeReaches(s, goal) ==> CanComplete(total, goal, s);
    } else {
      assert !CanComplete(total, goal, s);
      OverfullOutcome(total, threshold, s, m, result, key);
    }
  }

  /** The outcome of a list with more votes than the total. */
  lemma OverfullOutcome(total: Uint, threshold: Uint, s: seq<Key>, m: nat, result: VoteResult, key: Key)
    requires total < |s| < UINT_MODULUS && IsLead(s, m)
    requires TallyOutcome(total, threshold, s, result, key)
    ensures SomeReaches(s, Min(threshold, total)) <==> result == Majority
    ensures !SomeReaches(s, Min(threshold, total)) ==> result == if |s| <= total + m then Draw else NotYet
  {
    var goal := Min(threshold, total);
    var lead :| lead in s && CountOf(s, lead) == m;
    forall n | IsLead(s, n) ensures n == m {
    }
    if !SomeReaches(s, goal) {
      assert m < goal;
      var d := total - |s| + m;
      assert Wrap(d) == if d >= 0 then d else d + UINT_MODULUS;
    }
  }

  /** Such lists exist: four votes for four keys, two of two needed. */
  lemma WrapHidesDraw(a: Hash, b: Hash, c: Hash, d: Hash)
    requires Distinct([a, b, c, d])
    ensures TallyOutcome(2, 2, [a, b, c, d], NotYet, NO_KEY)
  {
    var s := [a, b, c, d];
    forall k | k in s ensures CountOf(s, k) == 1 {
      assert s[0] != s[1] && s[0] != s[2] && s[0] != s[3] && s[1] != s[2] && s[1] != s[3] && s[2] != s[3];
    }
    forall m | IsLead(s, m) ensures Wrap(2 - |s| + m) >= 2 {
      assert m == 1 && Wrap(-1) == UINT_MODULUS - 1;
    }
  }

  // ---------------------------------------------------------------------------
  // Stability: a threshold of at most one half

  ghost function BallotOf(n: Address, f: BallotFact): Ballot {
    Ballot(f, FactSign(n, true))
  }

  /** The ballot of a listed node for one of two facts. */
  ghost predicate OneOf(b: Ballot, ns: seq<Address>, f: BallotFact, g: BallotFact) {
    b.Node() in ns && (b == BallotOf(b.Node(), f) || b == BallotOf(b.Node(), g))
  }

  /** A tally step whose outcome is a majority for `key`. */
  lemma MajorityStep(r: Record, b: Ballot, key: Hash) returns (r': Record)
    requires b.Node() !in r.votes && (!r.voteproof.IsFinished() || r.voteproof.closed)
    requires |r.tally| + 1 >= r.threshold.threshold
    requires TallyOutcome(r.threshold.total, r.threshold.threshold, r.tally + [b.fact.hash], Majority, key)
    ensures VoteStep(r, b, r')
    ensures r' == WithBallot(r, b).(tally := r.tally + [b.fact.hash], voteproof := r'.voteproof)
    ensures r'.voteproof.result == Majority && r'.voteproof.majority == Lookup(r'.facts, key)
    ensures r'.voteproof.closed == r.voteproof.closed && ListsVotes(r'.voteproof.votes, r'.ballots)
  {
    var counted := WithBallot(r, b).(tally := r.tally + [b.fact.hash]);
    var vp := FinishExists(counted, Majority, Lookup(counted.facts, key));
    r' := counted.(voteproof := vp);
    assert TalliedAs(counted, vp, Majority, key);
  }

  /** The state of the run below: `m` votes for `f`, then `n` votes for `g`, are tallied. */
  ghost predicate Stage(r: Record, ns: seq<Address>, t: Threshold, f: BallotFact, m: nat, g: BallotFact, n: nat) {
    && r.threshold == t
    && r.tally == Votes(f.hash, m) + Votes(g.hash, n)
    && m + n <= |ns|
    && (forall i :: m + n <= i < |ns| ==> ns[i] !in r.votes)
    && (m > 0 ==> ns[0] in r.votes && f.hash in r.facts)
    && (n > 0 ==> g.hash in r.facts)
    && (forall h :: h in r.facts ==> r.facts[h].hash == h)
  }

  ghost predicate Won(r: Record, h: Hash, closed: bool) {
    r.voteproof.result == Majority && r.voteproof.majority.Some? && r.voteproof.majority.value.hash == h
    && r.voteproof.closed == closed
  }

  /** The first `m` votes, below the threshold. */
  lemma {:induction false} FirstVotes(ns: seq<Address>, t: Threshold, p: Point, f: BallotFact, g: BallotFact, m: nat)
    returns (rs: seq<Record>, bs: seq<Ballot>)
    requires Distinct(ns) && m < t.threshold && m <= |ns|
    ensures Run(rs, bs) && |bs| == m && rs[0] == NewRecord(p, ns, t)
    ensures Stage(rs[m], ns, t, f, m, g, 0) && rs[m].voteproof == EmptyVoteproof(p, ns, t.ratio)
    ensures forall b :: b in bs ==> OneOf(b, ns, f, g)
  {
    if m == 0 {
      rs, bs := [NewRecord(p, ns, t)], [];
    } else {
      rs, bs := FirstVotes(ns, t, p, f, g, m - 1);
      var r, b := rs[m - 1], BallotOf(ns[m - 1], f);
      var r' := WithBallot(r, b).(tally := r.tally + [f.hash]);
      assert Votes(f.hash, m - 1) + Votes(g.hash, 0) + [f.hash] == Votes(f.hash, m) + Votes(g.hash, 0);
      RunExtends(rs, bs, b, r');
      rs, bs := rs + [r'], bs + [b];
    }
  }

  /** After `f` has won and the record is closed, `n` votes for `g`, fewer than for `f`. */
  lemma {:induction false} LaterVotes(ns: seq<Address>, t: Threshold, f: BallotFact, g: BallotFact, rs: seq<Record>, bs: seq<Ballot>, n: nat)
    returns (rs': seq<Record>, bs': seq<Ballot>)
    requires Distinct(ns) && 1 <= t.threshold <= t.total && f.hash != g.hash && t.threshold + n <= |ns| && n < t.threshold
    requires Run(rs, bs) && Stage(rs[|bs|], ns, t, f, t.threshold, g, 0) && Won(rs[|bs|], f.hash, true)
    requires forall b :: b in bs ==> OneOf(b, ns, f, g)
    ensures Run(rs', bs') && rs <= rs' && bs <= bs' && rs'[0] == rs[0]
    ensures Stage(rs'[|bs'|], ns, t, f, t.threshold, g, n) && Won(rs'[|bs'|], f.hash, true)
    ensures forall b :: b in bs' ==> OneOf(b, ns, f, g)
  {
    if n == 0 {
      rs', bs' := rs, bs;
    } else {
      rs', bs' := LaterVotes(ns, t, f, g, rs, bs, n - 1);
      rs', bs' := OneMore(ns, t, f, g, rs', bs', n - 1, f.hash);
    }
  }

  /** One more vote for `g`, after which `key` wins. */
  lemma OneMore(ns: seq<Address>, t: Threshold, f: BallotFact, g: BallotFact, rs: seq<Record>, bs: seq<Ballot>, n: nat, key: Hash)
    returns (rs': seq<Record>, bs': seq<Ballot>)
    requires Distinct(ns) && 1 <= t.threshold <= t.total && f.hash != g.hash && t.threshold + n < |ns|
    requires (key == f.hash && n + 1 <= t.threshold) || (key == g.hash && n + 1 == t.threshold)
    requires Run(rs, bs) && Stage(rs[|bs|], ns, t, f, t.threshold, g, n) && Won(rs[|bs|], f.hash, true)
    requires forall b :: b in bs ==> OneOf(b, ns, f, g)
    ensures Run(rs', bs') && rs <= rs' && bs <= bs' && rs'[0] == rs[0]
    ensures Stage(rs'[|bs'|], ns, t, f, t.threshold, g, n + 1) && Won(rs'[|bs'|], key, true)
    ensures ListsVotes(rs'[|bs'|].voteproof.votes, rs'[|bs'|].ballots)
    ensures forall b :: b in bs' ==> OneOf(b, ns, f, g)
  {
    var b := BallotOf(ns[t.threshold + n], g);
    var r' := OneMoreStep(ns, t, f, g, rs[|bs|], n, key);
    RunExtends(rs, bs, b, r');
    rs', bs' := rs + [r'], bs + [b];
  }

  lemma OneMoreStep(ns: seq<Address>, t: Threshold, f: BallotFact, g: BallotFact, r: Record, n: nat, key: Hash)
    returns (r': Record)
    requires Distinct(ns) && 1 <= t.threshold <= t.total && f.hash != g.hash && t.threshold + n < |ns|
    requires (key == f.hash && n + 1 <= t.threshold) || (key == g.hash && n + 1 == t.threshold)
    requires Stage(r, ns, t, f, t.threshold, g, n) && Won(r, f.hash, true)
    ensures VoteStep(r, BallotOf(ns[t.threshold + n], g), r')
    ensures Stage(r', ns, t, f, t.threshold, g, n + 1) && Won(r', key, true)
    ensures ListsVotes(r'.voteproof.votes, r'.ballots)
  {
    var b := BallotOf(ns[t.threshold + n], g);
    NextOutcome(t, f, g, r, n, key);
    r' := MajorityStep(r, b, key);
    StageGrows(ns, t, f, g, r, n, b, r');
  }

  lemma NextOutcome(t: Threshold, f: BallotFact, g: BallotFact, r: Record, n: nat, key: Hash)
    requires 1 <= t.threshold <= t.total && f.hash != g.hash
    requires (key == f.hash && n + 1 <= t.threshold) || (key == g.hash && n + 1 == t.threshold)
    requires r.tally == Votes(f.hash, t.threshold) + Votes(g.hash, n)
    ensures TallyOutcome(t.total, t.threshold, r.tally + [g.hash], Majority, key)
  {
    VotesAppend(f.hash, t.threshold, g.hash, n);
    TwoGroups(t.total, t.threshold, f.hash, t.threshold, g.hash, n + 1, r.tally + [g.hash], key);
  }

  lemma StageGrows(ns: seq<Address>, t: Threshold, f: BallotFact, g: BallotFact, r: Record, n: nat, b: Ballot, r': Record)
    requires Distinct(ns) && 1 <= t.threshold && t.threshold + n < |ns|
    requires Stage(r, ns, t, f, t.threshold, g, n) && b == BallotOf(ns[t.threshold + n], g)
    requires r' == WithBallot(r, b).(tally := r.tally + [g.hash], voteproof := r'.voteproof)
    ensures Stage(r', ns, t, f, t.threshold, g, n + 1) && f.hash in r'.facts && g.hash in r'.facts
  {
    VotesAppend(f.hash, t.threshold, g.hash, n);
  }

  /** The vote that makes the first majority. */
  lemma WinningVote(ns: seq<Address>, t: Threshold, f: BallotFact, g: BallotFact, r: Record) returns (won: Record)
    requires Distinct(ns) && 1 <= t.threshold <= t.total == |ns| && f.hash != g.hash
    requires Stage(r, ns, t, f, t.threshold - 1, g, 0) && !r.voteproof.IsFinished() && !r.voteproof.closed
    ensures VoteStep(r, BallotOf(ns[t.threshold - 1], f), won)
    ensures Won(won, f.hash, false) && Stage(won, ns, t, f, t.threshold, g, 0)
  {
    var m := t.threshold - 1;
    VotesAppend(f.hash, m, g.hash, 0);
    VotesAppend(f.hash, t.threshold, g.hash, 0);
    assert r.tally + [f.hash] == Votes(f.hash, t.threshold) + Votes(g.hash, 0);
    TwoGroups(t.total, t.threshold, f.hash, t.threshold, g.hash, 0, r.tally + [f.hash], f.hash);
    won := MajorityStep(r, BallotOf(ns[m], f), f.hash);
  }

  /** The run up to the first majority. */
  lemma RunToMajority(ns: seq<Address>, t: Threshold, p: Point, f: BallotFact, g: BallotFact)
    returns (rs: seq<Record>, bs: seq<Ballot>)
    requires Distinct(ns) && 1 <= t.threshold <= t.total == |ns| && f.hash != g.hash
    ensures Run(rs, bs) && |bs| == t.threshold && rs[0] == NewRecord(p, ns, t)
    ensures forall b :: b in bs ==> OneOf(b, ns, f, g)
    ensures Won(rs[|bs|], f.hash, false) && Stage(rs[|bs|], ns, t, f, t.threshold, g, 0)
  {
    var m := t.threshold - 1;
    rs, bs := FirstVotes(ns, t, p, f, g, m);
    var won := WinningVote(ns, t, f, g, rs[m]);
    var b := BallotOf(ns[m], f);
    RunExtends(rs, bs, b, won);
    rs, bs := rs + [won], bs + [b];
  }

  /** And up to its closing. */
  lemma FirstWin(ns: seq<Address>, t: Threshold, p: Point, f: BallotFact, g: BallotFact)
    returns (rs: seq<Record>, bs: seq<Ballot>)
    requires Distinct(ns) && 1 <= t.threshold <= t.total == |ns| && f.hash != g.hash
    ensures Run(rs, bs) && |bs| == t.threshold + 1 && rs[0] == NewRecord(p, ns, t)
    ensures forall b :: b in bs ==> OneOf(b, ns, f, g)
    ensures Won(rs[t.threshold], f.hash, false) && Won(rs[|bs|], f.hash, true)
    ensures Stage(rs[|bs|], ns, t, f, t.threshold, g, 0)
  {
    rs, bs := RunToMajority(ns, t, p, f, g);
    var again := BallotOf(ns[0], f);
    var closed := CloseByRepeat(rs[|bs|], again);
    RunExtends(rs, bs, again, closed);
    rs, bs := rs + [closed], bs + [again];
  }

  lemma CloseByRepeat(won: Record, again: Ballot) returns (closed: Record)
    requires again.Node() in won.votes && won.voteproof.IsFinished()
    ensures VoteStep(won, again, closed) && closed == won.(voteproof := won.voteproof.(closed := true))
  {
    closed := won.(voteproof := won.voteproof.(closed := true));
  }

  /** At every threshold of at most one half of the total, some run of distinct voters finishes with one
      majority and later changes to another. */
  lemma UnstableAtHalf(ns: seq<Address>, t: Threshold, p: Point, f: BallotFact, g: BallotFact)
    returns (rs: seq<Record>, bs: seq<Ballot>, i: nat)
    requires Distinct(ns) && |ns| == t.total && 1 <= t.threshold && 2 * t.threshold <= t.total
    requires f.hash != g.hash
    ensures Run(rs, bs) && rs[0] == NewRecord(p, ns, t) && forall b :: b in bs ==> OneOf(b, ns, f, g)
    ensures i < |bs| && rs[i].voteproof.result == Majority && rs[|bs|].voteproof.result == Majority
    ensures rs[i].voteproof.majority.Some? && rs[i].voteproof.majority.value.hash == f.hash
    ensures rs[|bs|].voteproof.majority.Some? && rs[|bs|].voteproof.majority.value.hash == g.hash
    ensures CountOf(rs[|bs|].tally, f.hash) >= t.threshold && ListsVotes(rs[|bs|].voteproof.votes, rs[|bs|].ballots)
  {
    rs, bs := FirstWin(ns, t, p, f, g);
    i := t.threshold;
    var won := rs[i];
    rs, bs := LaterVotes(ns, t, f, g, rs, bs, t.threshold - 1);
    assert rs[i] == won;
    rs, bs := OneMore(ns, t, f, g, rs, bs, t.threshold - 1, g.hash);
    assert rs[i] == won;
    CountConcat(Votes(f.hash, t.threshold), Votes(g.hash, t.threshold), f.hash);
    VotesCount(f.hash, t.threshold, f.hash);
  }

  /** In every run of the listed voters a finished voteproof keeps its majority. */
  ghost predicate MajoritiesStable(ns: seq<Address>, t: Threshold) {
    forall rs: seq<Record>, bs: seq<Ballot>, i: nat, j: nat ::
      VotersRun(rs, bs, ns, t) && i <= j < |rs| && rs[i].voteproof.IsFinished() ==>
        rs[j].voteproof.majority == rs[i].voteproof.majority
  }

  ghost predicate VotersRun(rs: seq<Record>, bs: seq<Ballot>, ns: seq<Address>, t: Threshold) {
    Run(rs, bs) && rs[0].threshold == t && forall b :: b in bs ==> b.Node() in ns
  }

  /** Majorities are stable exactly if twice the threshold exceeds the total. */
  lemma StabilityExactly(ns: seq<Address>, t: Threshold)
    requires Distinct(ns) && |ns| == t.total && 1 <= t.threshold <= t.total
    ensures MajoritiesStable(ns, t) <==> AboveHalf(t)
  {
    if AboveHalf(t) {
      forall rs: seq<Record>, bs: seq<Ballot>, i: nat, j: nat | VotersRun(rs, bs, ns, t) && i <= j < |rs| && rs[i].voteproof.IsFinished()
        ensures rs[j].voteproof.majority == rs[i].voteproof.majority
      {
        DistinctSize(ns);
        Stability(rs, bs, Elements(ns), i, j);
      }
    } else {
      var p := Point(0, 0, STAGE_INIT);
      var rs, bs, i := UnstableAtHalf(ns, t, p, BallotFact(Hash("f"), p, "", true), BallotFact(Hash("g"), p, "", true));
      assert VotersRun(rs, bs, ns, t);
      assert Hash("f") != Hash("g") by {
        assert "f"[0] != "g"[0];
      }
    }
  }

  // ---------------------------------------------------------------------------
  // Validation: a threshold of at most one half

  /** Whatever recount a validator happens to make, it accepts every voteproof that a run over the suffrage
      finishes. */
  ghost predicate AlwaysAccepted(suffrages: seq<Address>, ratio: real, t: Threshold) {
    forall rs: seq<Record>, bs: seq<Ballot>, point: Point, i: nat, result: VoteResult, key: Hash ::
      Recounted(rs, bs, suffrages, ratio, t, point, i, result, key) ==> RecountMatches(rs[i].voteproof, result, key)
  }

  /** A recount of a finished voteproof of a run. */
  ghost predicate Recounted(rs: seq<Record>, bs: seq<Ballot>, suffrages: seq<Address>, ratio: real, t: Threshold, point: Point,
                            i: nat, result: VoteResult, key: Hash)
  {
    && SuffrageRun(rs, bs, suffrages, ratio, t, point) && i < |rs| && rs[i].voteproof.IsFinished()
    && RecountOutcome(t, VoteHashes(rs[i].voteproof.votes), result, key)
  }

  /** The votes of a finished voteproof count at least as much for a hash as the tally does. */
  lemma ListedCount(rs: seq<Record>, bs: seq<Ballot>, members: set<Address>, h: Hash)
    requires QuorateRun(rs, bs, members) && ListsVotes(rs[|bs|].voteproof.votes, rs[|bs|].ballots)
    ensures CountOf(VoteHashes(rs[|bs|].voteproof.votes), h) >= CountOf(rs[|bs|].tally, h)
  {
    var r := rs[|bs|];
    RunHolds(rs, bs, members, |bs|);
    var ns :| CountedFrom(r, ns);
    CountedSupport(r, ns, h);
    ListedSupport(r, r.voteproof.votes, h);
  }

  /** At a threshold of at most one half, some recount rejects a voteproof that a run finished. */
  lemma RejectedAtHalf(suffrages: seq<Address>, ratio: real, t: Threshold)
    requires |suffrages| < UINT_MODULUS && Distinct(suffrages) && NewThreshold(|suffrages|, ratio) == Ok(t)
    requires !AboveHalf(t)
    ensures !AlwaysAccepted(suffrages, ratio, t)
  {
    QuorumComplement(|suffrages|, ratio);
    var p := Point(0, 0, STAGE_INIT);
    var f, g := BallotFact(Hash("f"), p, "", true), BallotFact(Hash("g"), p, "", true);
    assert f.hash != g.hash by {
      assert "f"[0] != "g"[0];
    }
    var rs, bs, i := UnstableAtHalf(suffrages, t, p, f, g);
    var members := Elements(suffrages);
    DistinctSize(suffrages);
    assert QuorateRun(rs, bs, members) by {
      forall j | 0 <= j < |bs| ensures bs[j].Node() in members {
        assert bs[j] in bs;
      }
    }
    ListedCount(rs, bs, members, f.hash);
    assert SuffrageRun(rs, bs, suffrages, ratio, t, p);
    assert Recounted(rs, bs, suffrages, ratio, t, p, |bs|, Majority, f.hash);
    assert !RecountMatches(rs[|bs|].voteproof, Majority, f.hash);
  }

  /** Every recount accepts every voteproof that a run over the suffrage finishes, exactly if twice the threshold
      exceeds the total. */
  lemma ValidationExactly(suffrages: seq<Address>, ratio: real, t: Threshold)
    requires |suffrages| < UINT_MODULUS && Distinct(suffrages) && NewThreshold(|suffrages|, ratio) == Ok(t)
    ensures AlwaysAccepted(suffrages, ratio, t) <==> AboveHalf(t)
  {
    if AboveHalf(t) {
      QuorumComplement(|suffrages|, ratio);
      forall rs: seq<Record>, bs: seq<Ballot>, point: Point, i: nat, result: VoteResult, key: Hash |
        Recounted(rs, bs, suffrages, ratio, t, point, i, result, key)
        ensures RecountMatches(rs[i].voteproof, result, key)
      {
        SuffrageRunIssues(rs, bs, suffrages, ratio, t, point, i);
        RecountIsJustice(rs[i].voteproof, t, result, key);
      }
    } else {
      RejectedAtHalf(suffrages, ratio, t);
    }
  }
}
