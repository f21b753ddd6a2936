/** The conditions of agreement and of exclusion are exact: where they fail, some run of the network
    violates them. */
module Exactness {
  import opened Base
  import opened Quorum
  import opened VoteCount
  import opened Voteproofs
  import opened Records
  import opened Keys
  import opened Ballotboxes
  import opened Network

  // ---------------------------------------------------------------------------
  // Reachable networks

  ghost predicate ReachedBy(w: Setting, s: Net, ss: seq<Net>, es: seq<Event>)
    requires w.Valid()
  {
    NetRun(w, ss, es) && ss[|es|] == s
  }

  /** Some run ends in `s`. */
  ghost predicate Reachable(w: Setting, s: Net)
    requires w.Valid()
  {
    exists ss, es :: ReachedBy(w, s, ss, es)
  }

  lemma StepReaches(w: Setting, s: Net, e: Event, s': Net)
    requires w.Valid() && Reachable(w, s) && NetStep(w, s, e, s')
    ensures Reachable(w, s')
  {
    var ss, es :| ReachedBy(w, s, ss, es);
    NetRunExtends(w, ss, es, e, s');
    assert ReachedBy(w, s', ss + [s'], es + [e]);
  }

  lemma NetRunExtends(w: Setting, ss: seq<Net>, es: seq<Event>, e: Event, s': Net)
    requires w.Valid() && NetRun(w, ss, es) && NetStep(w, ss[|es|], e, s')
    ensures NetRun(w, ss + [s'], es + [e])
  {
    forall i | 0 <= i < |es + [e]| ensures NetStepAt(w, ss + [s'], es + [e], i) {
      if i < |es| {
        assert NetStepAt(w, ss, es, i);
      }
    }
  }

  const TWO_EMPTY_BOXES := Net(map[], map[0 := EMPTY_BOX, 1 := EMPTY_BOX])

  lemma EmptyReaches(w: Setting)
    requires w.Valid()
    ensures Reachable(w, TWO_EMPTY_BOXES)
  {
    assert ReachedBy(w, TWO_EMPTY_BOXES, [TWO_EMPTY_BOXES], []);
  }

  /** `s` with every listed node's vote cast at `p`. */
  ghost predicate CastBy(s: Net, ns: seq<Address>, p: Point, factOf: Address -> BallotFact) {
    && (forall n :: n in ns ==> (n, p) in s.cast && s.cast[(n, p)] == factOf(n).hash)
    && (forall n :: (n, p) in s.cast ==> n in ns)
  }

  /** Nodes that are not faulty can cast any votes. */
  lemma {:induction false} CastAll(w: Setting, ns: seq<Address>, p: Point, factOf: Address -> BallotFact) returns (s: Net)
    requires w.Valid() && Distinct(ns) && forall n :: n in ns ==> n !in w.faulty
    ensures Reachable(w, s) && s.boxes == TWO_EMPTY_BOXES.boxes && CastBy(s, ns, p, factOf)
    decreases |ns|
  {
    if ns == [] {
      EmptyReaches(w);
      s := TWO_EMPTY_BOXES;
    } else {
      var front, n := ns[..|ns| - 1], ns[|ns| - 1];
      var before := CastAll(w, front, p, factOf);
      assert ns == front + [n] && n !in front;
      s := before.(cast := before.cast[(n, p) := factOf(n).hash]);
      StepReaches(w, before, Cast(n, p, factOf(n).hash), s);
    }
  }

  /** One ballot of each of the listed nodes. */
  ghost function BallotsBy(ns: seq<Address>, factOf: Address -> BallotFact): (bs: seq<Ballot>)
    ensures |bs| == |ns|
    ensures forall i :: 0 <= i < |ns| ==> bs[i] == Ballot(factOf(ns[i]), FactSign(ns[i], true))
  {
    seq(|ns|, i requires 0 <= i < |ns| => Ballot(factOf(ns[i]), FactSign(ns[i], true)))
  }

  /** Ballots that can be delivered to a box for the point `p`. */
  ghost predicate Deliverable(w: Setting, s: Net, p: Point, bs: seq<Ballot>) {
    CanVote(p.stage) &&
    forall b :: b in bs ==> b.fact.point == p && b.Node() in w.suffrages && Authentic(w, s, b)
  }

  /** What a box holds after the ballots of a run at one point. */
  ghost predicate BoxAfter(box: Box, p: Point, rs: seq<Record>, bs: seq<Ballot>)
    requires |rs| == |bs| + 1
  {
    box.records == if bs == [] then map[] else map[VrsKey(p) := rs[|bs|]]
  }

  /** A run goes on by delivering ballots to an empty box, which makes it a run of one record. */
  lemma {:induction false} DeliverRun(w: Setting, ss: seq<Net>, es: seq<Event>, i: nat, p: Point, bs: seq<Ballot>)
    returns (ss': seq<Net>, es': seq<Event>, rs: seq<Record>)
    requires w.Valid() && NetRun(w, ss, es) && i in ss[|es|].boxes && ss[|es|].boxes[i] == EMPTY_BOX
    requires Deliverable(w, ss[|es|], p, bs)
    ensures NetRun(w, ss', es') && ss <= ss' && es <= es' && |es'| == |es| + |bs|
    ensures bs != [] ==> es'[|es'| - 1] == Deliver(i, bs[|bs| - 1])
    ensures DeliveredTo(w, ss[|es|], ss'[|es'|], i, p, rs, bs)
    decreases |bs|
  {
    if bs == [] {
      ss', es', rs := ss, es, [NewRecord(p, w.suffrages, w.Quorum())];
      assert ss[|es|].boxes == ss[|es|].boxes[i := ss[|es|].boxes[i]];
    } else {
      var front, b := bs[..|bs| - 1], bs[|bs| - 1];
      assert bs == front + [b];
      var ss0, es0, rs0 := DeliverRun(w, ss, es, i, p, front);
      var after;
      after, rs := DeliverNext(w, ss[|es|], ss0[|es0|], i, p, rs0, front, b);
      NetRunExtends(w, ss0, es0, Deliver(i, b), after);
      ss', es' := ss0 + [after], es0 + [Deliver(i, b)];
    }
  }

  lemma DeliverNext(w: Setting, s: Net, before: Net, i: nat, p: Point, rs: seq<Record>, bs: seq<Ballot>, b: Ballot)
    returns (after: Net, rs': seq<Record>)
    requires w.Valid() && i in s.boxes && DeliveredTo(w, s, before, i, p, rs, bs) && Deliverable(w, s, p, bs + [b])
    ensures NetStep(w, before, Deliver(i, b), after) && DeliveredTo(w, s, after, i, p, rs', bs + [b])
  {
    assert b in bs + [b];
    var box', r' := DeliverOne(w, before, i, p, rs, bs, b);
    after := before.(boxes := before.boxes[i := box']);
    assert after.boxes == s.boxes[i := box'];
    RunExtends(rs, bs, b, r');
    rs' := rs + [r'];
  }

  /** The network after the ballots were delivered to its empty box `i`. */
  ghost predicate DeliveredTo(w: Setting, s: Net, s': Net, i: nat, p: Point, rs: seq<Record>, bs: seq<Ballot>)
    requires w.Valid() && i in s.boxes
  {
    && i in s'.boxes && s' == s.(boxes := s.boxes[i := s'.boxes[i]])
    && Run(rs, bs) && rs[0] == NewRecord(p, w.suffrages, w.Quorum()) && BoxAfter(s'.boxes[i], p, rs, bs)
  }

  /** Any authentic ballots can be delivered to an empty box of a reachable network. */
  lemma DeliverAll(w: Setting, s: Net, i: nat, p: Point, bs: seq<Ballot>) returns (s': Net, rs: seq<Record>)
    requires w.Valid() && Reachable(w, s) && i in s.boxes && s.boxes[i] == EMPTY_BOX
    requires Deliverable(w, s, p, bs)
    ensures Reachable(w, s') && DeliveredTo(w, s, s', i, p, rs, bs)
  {
    var ss, es :| ReachedBy(w, s, ss, es);
    var ss', es', rs' := DeliverRun(w, ss, es, i, p, bs);
    s', rs := ss'[|es'|], rs';
    assert ReachedBy(w, s', ss', es');
  }

  lemma DeliverOne(w: Setting, s: Net, i: nat, p: Point, rs: seq<Record>, bs: seq<Ballot>, b: Ballot) returns (box': Box, r': Record)
    requires w.Valid() && i in s.boxes && Deliverable(w, s, p, [b])
    requires Run(rs, bs) && rs[0] == NewRecord(p, w.suffrages, w.Quorum()) && BoxAfter(s.boxes[i], p, rs, bs)
    ensures VoteStep(rs[|bs|], b, r') && box'.records == map[VrsKey(p) := r']
    ensures NetStep(w, s, Deliver(i, b), s.(boxes := s.boxes[i := box']))
  {
    assert b in [b];
    var box := s.boxes[i];
    r' := StepExists(rs[|bs|], b);
    box' := Box(box.records[VrsKey(p) := r'], Later(box.latest, b));
    assert RecordFor(w.Conf(), box.records, p) == rs[|bs|];
    assert box'.records == map[VrsKey(p) := r'];
    assert BoxVote(w.Conf(), box, b, box', Ok(r'.voteproof));
  }

  // ---------------------------------------------------------------------------
  // Records that hear one ballot of each of a set of nodes

  /** A record that heard exactly the given nodes, each with its own fact. */
  ghost predicate HeardFrom(r: Record, nodes: set<Address>, factOf: Address -> BallotFact) {
    r.votes.Keys == nodes && forall n :: n in r.votes ==> r.votes[n] == factOf(n).hash
  }

  lemma RunSound(w: Setting, rs: seq<Record>, ns: seq<Address>, p: Point, factOf: Address -> BallotFact)
    requires w.Valid() && Elements(ns) <= w.Members()
    requires Run(rs, BallotsBy(ns, factOf)) && rs[0] == NewRecord(p, w.suffrages, w.Quorum())
    ensures Sound(rs[|ns|], w.Members()) && rs[|ns|].threshold == w.Quorum()
  {
    SettingQuorate(w);
    var bs := BallotsBy(ns, factOf);
    forall i | 0 <= i < |bs| ensures bs[i].Node() in w.Members() {
      assert ns[i] in Elements(ns);
    }
    RunHolds(rs, bs, w.Members(), |bs|);
  }

  lemma RunHears(rs: seq<Record>, ns: seq<Address>, factOf: Address -> BallotFact)
    requires Run(rs, BallotsBy(ns, factOf))
    ensures HeardFrom(rs[|ns|], Elements(ns), factOf)
  {
    var bs := BallotsBy(ns, factOf);
    var votes := rs[|bs|].votes;
    VotesComeFromBallots(rs, bs, |bs|);
    forall n | n in votes ensures n in Elements(ns) && votes[n] == factOf(n).hash {
      var b :| b in bs && b.Node() == n && b.fact.hash == votes[n];
      var i :| 0 <= i < |bs| && bs[i] == b;
      assert ns[i] == n;
    }
    forall n | n in ns ensures n in votes {
      var i :| 0 <= i < |ns| && ns[i] == n;
      assert bs[i].Node() == n;
      VotesStay(rs, bs, i, |bs|);
    }
  }

  /** A quorum that votes one fact, and nobody else, makes a majority for it, whatever the threshold. */
  lemma UnanimousWins(r: Record, members: set<Address>, nodes: set<Address>, factOf: Address -> BallotFact, h: Hash)
    requires Sound(r, members) && HeardFrom(r, nodes, factOf)
    requires |nodes| >= r.threshold.threshold && forall n :: n in nodes ==> factOf(n).hash == h
    ensures r.voteproof.result == Majority && r.voteproof.majority.Some? && r.voteproof.majority.value.hash == h
  {
    AgreeingPrevail(r, members, nodes, h);
    var k := r.voteproof.majority.value.hash;
    assert k in r.votes.Values;
  }

  /** When all have voted and no hash has a quorum, the record has drawn. */
  lemma MinoritiesDraw(r: Record, members: set<Address>)
    requires Sound(r, members) && r.votes.Keys == members && |members| == r.threshold.total
    requires forall h :: |Supporters(r.votes, h)| < r.threshold.threshold
    ensures r.voteproof.result == Draw
  {
    var total, goal := r.threshold.total, r.threshold.threshold;
    TallyFits(r, members);
    var ns :| CountedFrom(r, ns) && (!r.voteproof.closed ==> |ns| == |r.votes|);
    forall h ensures CountOf(r.tally, h) < goal {
      CountedSupport(r, ns, h);
    }
    if r.voteproof.result == NotYet {
      CompletionByOne(total, goal, r.tally);
    }
  }

  // ---------------------------------------------------------------------------
  // Two boxes of one network

  /** If the nodes that are not faulty vote at most one fact each, two boxes can hear any ballots of any
      members. */
  lemma TwoBoxes(w: Setting, honest: seq<Address>, p: Point, voted: Address -> BallotFact,
                 ns1: seq<Address>, fact1: Address -> BallotFact, ns2: seq<Address>, fact2: Address -> BallotFact)
    returns (s: Net, r1: Record, r2: Record)
    requires w.Valid() && CanVote(p.stage) && Distinct(honest) && forall n :: n in honest ==> n !in w.faulty
    requires ns1 != [] && Elements(ns1) <= w.Members() && ns2 != [] && Elements(ns2) <= w.Members()
    requires forall n :: n in ns1 ==> fact1(n).point == p && (n in w.faulty || (n in honest && fact1(n).hash == voted(n).hash))
    requires forall n :: n in ns2 ==> fact2(n).point == p && (n in w.faulty || (n in honest && fact2(n).hash == voted(n).hash))
    ensures Reachable(w, s) && Holds(s, 0, p, r1) && Holds(s, 1, p, r2) && CastBy(s, honest, p, voted)
    ensures Sound(r1, w.Members()) && r1.threshold == w.Quorum() && HeardFrom(r1, Elements(ns1), fact1)
    ensures Sound(r2, w.Members()) && r2.threshold == w.Quorum() && HeardFrom(r2, Elements(ns2), fact2)
  {
    var s0 := CastAll(w, honest, p, voted);
    CanDeliver(w, s0, honest, p, voted, ns1, fact1);
    CanDeliver(w, s0, honest, p, voted, ns2, fact2);
    var bs1, bs2 := BallotsBy(ns1, fact1), BallotsBy(ns2, fact2);
    var s1, rs1 := DeliverAll(w, s0, 0, p, bs1);
    var s2, rs2 := DeliverAll(w, s1, 1, p, bs2);
    RunSound(w, rs1, ns1, p, fact1);
    RunHears(rs1, ns1, fact1);
    RunSound(w, rs2, ns2, p, fact2);
    RunHears(rs2, ns2, fact2);
    s, r1, r2 := s2, rs1[|bs1|], rs2[|bs2|];
  }

  lemma CanDeliver(w: Setting, s: Net, honest: seq<Address>, p: Point, voted: Address -> BallotFact,
                   ns: seq<Address>, fact: Address -> BallotFact)
    requires CanVote(p.stage) && CastBy(s, honest, p, voted) && Elements(ns) <= w.Members()
    requires forall n :: n in ns ==> fact(n).point == p && (n in w.faulty || (n in honest && fact(n).hash == voted(n).hash))
    ensures Deliverable(w, s, p, BallotsBy(ns, fact))
  {
    var bs := BallotsBy(ns, fact);
    forall b | b in bs ensures b.fact.point == p && b.Node() in w.suffrages && Authentic(w, s, b) {
      var i :| 0 <= i < |bs| && bs[i] == b;
      assert ns[i] in Elements(ns);
    }
  }

  const POINT := Point(0, 0, STAGE_INIT)

  /** The fact that all vote for, and a fact of each node's own. */
  ghost function Common(n: Address): BallotFact {
    BallotFact(Hash("common"), POINT, "", true)
  }

  ghost function Own(n: Address): BallotFact {
    BallotFact(Hash("own " + n.text), POINT, "", true)
  }

  lemma OwnDiffers(m: Address, n: Address)
    ensures Own(m).hash != Common(n).hash
    ensures m != n ==> Own(m).hash != Own(n).hash
  {
    assert ("own " + m.text)[0] == 'o' && "common"[0] == 'c';
    assert ("own " + m.text)[4..] == m.text && ("own " + n.text)[4..] == n.text;
  }

  /** At two times of one run, two boxes hold these records for a point. */
  ghost predicate InOneRun(w: Setting, ss: seq<Net>, es: seq<Event>, i: nat, j: nat, a: nat, b: nat, p: Point, r1: Record, r2: Record)
    requires w.Valid()
  {
    NetRun(w, ss, es) && i < |ss| && j < |ss| && Holds(ss[i], a, p, r1) && Holds(ss[j], b, p, r2)
  }

  // ---------------------------------------------------------------------------
  // Agreement

  /** In every run any two boxes with MAJORITY at a point have the same majority. */
  ghost predicate Agrees(w: Setting)
    requires w.Valid()
  {
    forall ss, es, i: nat, j: nat, a, b, p, r1, r2 ::
      InOneRun(w, ss, es, i, j, a, b, p, r1, r2) && r1.voteproof.result == Majority && r2.voteproof.result == Majority ==>
        SameMajority(r1, r2)
  }

  /** What is outside a large enough set can be split so that each half with the set makes a quorum. */
  lemma SplitAround(members: set<Address>, two: set<Address>, quorum: nat) returns (one: set<Address>, other: set<Address>)
    requires two <= members && quorum <= |members| && |two| >= 2 * quorum - |members|
    ensures one !! two && other !! two && one !! other && one + other + two == members
    ensures |one + two| >= quorum && |other + two| >= quorum
  {
    var rest := members - two;
    assert |rest| == |members| - |two|;
    one := TakeSome(rest, if quorum > |two| then quorum - |two| else 0);
    other := rest - one;
    assert |other| == |rest| - |one|;
    assert |one + two| == |one| + |two| && |other + two| == |other| + |two|;
  }

  lemma ElementsOf(ns: seq<Address>, nodes: set<Address>)
    requires forall n :: n in ns <==> n in nodes
    ensures Elements(ns) == nodes
  {
  }

  /** With as many faulty members as two quorums share, two boxes can finish with different majorities. */
  lemma Disagreement(w: Setting) returns (s: Net, r1: Record, r2: Record)
    requires w.Valid() && |w.FaultyMembers()| >= 2 * w.Quorum().threshold - |w.suffrages|
    ensures Reachable(w, s) && Holds(s, 0, POINT, r1) && Holds(s, 1, POINT, r2)
    ensures r1.voteproof.result == Majority && r2.voteproof.result == Majority && !SameMajority(r1, r2)
  {
    SettingQuorate(w);
    var two, members := w.FaultyMembers(), w.Members();
    var one, other := SplitAround(members, two, w.Quorum().threshold);
    var somebody := Address("");
    var voted := n => if n in one then Common(n) else Own(somebody);
    var otherwise := n => Own(somebody);
    var honest := ListSet(one + other);
    var ns1 := ListSet(one + two);
    var ns2 := ListSet(other + two);
    ElementsOf(ns1, one + two);
    ElementsOf(ns2, other + two);
    s, r1, r2 := TwoBoxes(w, honest, POINT, voted, ns1, Common, ns2, otherwise);
    UnanimousWins(r1, members, one + two, Common, Common(somebody).hash);
    UnanimousWins(r2, members, other + two, otherwise, Own(somebody).hash);
    OwnDiffers(somebody, somebody);
  }

  /** Agreement holds exactly if fewer members are faulty than two quorums share. */
  lemma AgreementExactly(w: Setting)
    requires w.Valid()
    ensures Agrees(w) <==> |w.FaultyMembers()| < 2 * w.Quorum().threshold - |w.suffrages|
  {
    if |w.FaultyMembers()| < 2 * w.Quorum().threshold - |w.suffrages| {
      forall ss, es, i: nat, j: nat, a, b, p, r1, r2 |
        InOneRun(w, ss, es, i, j, a, b, p, r1, r2) && r1.voteproof.result == Majority && r2.voteproof.result == Majority
        ensures SameMajority(r1, r2)
      {
        AgreementBelowOverlap(w, ss, es, i, j, a, b, p, r1, r2);
      }
    } else {
      var s, r1, r2 := Disagreement(w);
      var ss, es :| ReachedBy(w, s, ss, es);
      assert InOneRun(w, ss, es, |es|, |es|, 0, 1, POINT, r1, r2);
    }
  }

  // ---------------------------------------------------------------------------
  // Exclusion

  /** In every run no box draws at a point where a box has MAJORITY. */
  ghost predicate Excludes(w: Setting)
    requires w.Valid()
  {
    forall ss, es, i: nat, j: nat, a, b, p, r1, r2 ::
      InOneRun(w, ss, es, i, j, a, b, p, r1, r2) && r1.voteproof.result == Majority ==> r2.voteproof.result != Draw
  }

  /** At every quorum of two or more, a single member that votes twice is enough for a MAJORITY at one box
      and a DRAW at another. */
  lemma OneDoubleVoteBreaksExclusion(w: Setting, d: Address) returns (s: Net, r1: Record, r2: Record)
    requires w.Valid() && d in w.FaultyMembers() && w.Quorum().threshold >= 2
    ensures Reachable(w, s) && Holds(s, 0, POINT, r1) && Holds(s, 1, POINT, r2)
    ensures r1.voteproof.result == Majority && r2.voteproof.result == Draw
  {
    SettingQuorate(w);
    var members, quorum := w.Members(), w.Quorum().threshold;
    assert |members - {d}| == |members| - 1;
    var part := TakeSome(members - {d}, quorum - 1);
    var voted := n => if n in part then Common(n) else Own(n);
    var honest := ListSet(members - w.faulty);
    var ns1 := ListSet(part + {d});
    var ns2 := ListSet(members);
    ElementsOf(ns1, part + {d});
    ElementsOf(ns2, members);
    s, r1, r2 := TwoBoxes(w, honest, POINT, voted, ns1, Common, ns2, voted);
    UnanimousWins(r1, members, part + {d}, Common, Common(d).hash);
    forall h ensures |Supporters(r2.votes, h)| < quorum {
      FewSupport(r2, members, part, voted, h);
    }
    MinoritiesDraw(r2, members);
  }

  /** If the nodes of `part` vote the common fact and all others their own, no hash has more supporters than
      `part` has nodes, or one. */
  lemma FewSupport(r: Record, members: set<Address>, part: set<Address>, voted: Address -> BallotFact, h: Hash)
    requires HeardFrom(r, members, voted)
    requires forall n :: voted(n) == if n in part then Common(n) else Own(n)
    ensures |Supporters(r.votes, h)| <= if |part| > 1 then |part| else 1
  {
    var backers := Supporters(r.votes, h);
    if backers <= part {
      SubsetSize(backers, part);
    } else {
      var n :| n in backers && n !in part;
      forall m | m in backers ensures m == n {
        OwnDiffers(n, m);
      }
      SubsetSize(backers, {n});
    }
  }

  /** Exclusion holds exactly if no member is faulty or a quorum is a single node. */
  lemma ExclusionExactly(w: Setting)
    requires w.Valid()
    ensures Excludes(w) <==> w.FaultyMembers() == {} || w.Quorum().threshold == 1
  {
    SettingQuorate(w);
    if w.FaultyMembers() == {} || w.Quorum().threshold == 1 {
      forall ss, es, i: nat, j: nat, a, b, p, r1, r2 |
        InOneRun(w, ss, es, i, j, a, b, p, r1, r2) && r1.voteproof.result == Majority
        ensures r2.voteproof.result != Draw
      {
        DrawExcludesMajority(w, ss, es, i, j, a, b, p, r1, r2);
      }
    } else {
      var d :| d in w.FaultyMembers();
      var s, r1, r2 := OneDoubleVoteBreaksExclusion(w, d);
      var ss, es :| ReachedBy(w, s, ss, es);
      assert InOneRun(w, ss, es, |es|, |es|, 0, 1, POINT, r1, r2);
    }
  }

  // ---------------------------------------------------------------------------
  // Progress

  /** In every run in which the nodes that are not faulty cast only one hash at a point, it prevails at
      every box. */
  ghost predicate Progresses(w: Setting)
    requires w.Valid()
  {
    forall ss, es, i: nat, a, p, r, h ::
      InRun(w, ss, es, i, a, p, r) && OnlyCast(ss[|es|], p, h) ==> Prevails(w, r, h)
  }

  ghost predicate InRun(w: Setting, ss: seq<Net>, es: seq<Event>, i: nat, a: nat, p: Point, r: Record)
    requires w.Valid()
  {
    NetRun(w, ss, es) && i < |ss| && Holds(ss[i], a, p, r)
  }

  /** With a quorum of faulty members, or without a quorum of others, a box can fail to follow what the
      others agree on. */
  lemma Stalled(w: Setting) returns (s: Net, r: Record, h: Hash)
    requires w.Valid()
    requires |w.FaultyMembers()| >= w.Quorum().threshold || |w.suffrages| - |w.FaultyMembers()| < w.Quorum().threshold
    ensures Reachable(w, s) && Holds(s, 0, POINT, r) && OnlyCast(s, POINT, h) && !Prevails(w, r, h)
  {
    SettingQuorate(w);
    var members, faulty := w.Members(), w.FaultyMembers();
    var others := members - w.faulty;
    assert |members| == |others| + |faulty|;
    var somebody := Address("");
    var otherwise := n => Own(somebody);
    var honest := ListSet(others);
    var r2;
    h := Common(somebody).hash;
    if |faulty| >= w.Quorum().threshold {
      var ns := ListSet(faulty);
      ElementsOf(ns, faulty);
      s, r, r2 := TwoBoxes(w, honest, POINT, Common, ns, otherwise, ns, otherwise);
      UnanimousWins(r, members, faulty, otherwise, Own(somebody).hash);
      OwnDiffers(somebody, somebody);
    } else {
      ElementsOf(honest, others);
      s, r, r2 := TwoBoxes(w, honest, POINT, Common, honest, Common, honest, Common);
      if r.voteproof.result == Majority {
        MajoritySupport(r);
        SubsetSize(Supporters(r.votes, r.voteproof.majority.value.hash), others);
      }
    }
  }

  /** Progress holds exactly if the members that are not faulty make a quorum and the faulty ones do not. */
  lemma ProgressExactly(w: Setting)
    requires w.Valid()
    ensures Progresses(w) <==> |w.FaultyMembers()| < w.Quorum().threshold <= |w.suffrages| - |w.FaultyMembers()|
  {
    if |w.FaultyMembers()| < w.Quorum().threshold <= |w.suffrages| - |w.FaultyMembers()| {
      forall ss, es, i: nat, a, p, r, h | InRun(w, ss, es, i, a, p, r) && OnlyCast(ss[|es|], p, h)
        ensures Prevails(w, r, h)
      {
        ProgressDespiteFaults(w, ss, es, i, a, p, r, h);
      }
    } else {
      var s, r, h := Stalled(w);
      var ss, es :| ReachedBy(w, s, ss, es);
      assert InRun(w, ss, es, |es|, 0, POINT, r);
    }
  }
}
