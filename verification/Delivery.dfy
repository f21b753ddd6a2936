/** What the records of the boxes of a network are: runs of the ballots delivered to them. What is proved of
    one record's run holds of every box at every time: isaac/ballotbox.go and isaac/voterecords.go. */
module Delivery {
  import opened Base
  import opened Quorum
  import opened VoteCount
  import opened Voteproofs
  import opened Backing
  import opened Records
  import opened Issuance
  import opened Keys
  import opened Ballotboxes
  import opened Network
  import opened Exactness

  // ---------------------------------------------------------------------------
  // Records as runs

  /** One of the first `n` events delivered the ballot to the box. */
  ghost predicate DeliveredBy(es: seq<Event>, n: nat, a: nat, b: Ballot) {
    exists i :: 0 <= i < n && i < |es| && es[i] == Deliver(a, b)
  }

  /** The record is the end of a run of ballots for the point that members sent and that were delivered. */
  ghost predicate EndOf(w: Setting, es: seq<Event>, n: nat, a: nat, p: Point, r: Record, rs: seq<Record>, bs: seq<Ballot>)
    requires w.Valid()
  {
    && Run(rs, bs) && rs[|bs|] == r && rs[0] == NewRecord(p, w.suffrages, w.Quorum())
    && CanVote(p.stage) && bs != []
    && forall b :: b in bs ==> b.fact.point == p && b.Node() in w.suffrages && DeliveredBy(es, n, a, b)
  }

  ghost predicate GrownFrom(w: Setting, es: seq<Event>, n: nat, a: nat, p: Point, r: Record)
    requires w.Valid()
  {
    exists rs, bs :: EndOf(w, es, n, a, p, r, rs, bs)
  }

  lemma StillGrown(w: Setting, es: seq<Event>, n: nat, a: nat, p: Point, r: Record)
    requires w.Valid() && GrownFrom(w, es, n, a, p, r)
    ensures GrownFrom(w, es, n + 1, a, p, r)
  {
    var rs, bs :| EndOf(w, es, n, a, p, r, rs, bs);
    forall b | b in bs ensures DeliveredBy(es, n + 1, a, b) {
      var i :| 0 <= i < n && i < |es| && es[i] == Deliver(a, b);
      assert es[i] == Deliver(a, b);
    }
    assert EndOf(w, es, n + 1, a, p, r, rs, bs);
  }

  /** A vote on a record, stored or new, makes its run longer. */
  lemma GrowsByVote(w: Setting, es: seq<Event>, n: nat, a: nat, p: Point, r: Record, b: Ballot, r': Record)
    requires w.Valid() && n < |es| && es[n] == Deliver(a, b) && VoteStep(r, b, r')
    requires CanVote(p.stage) && b.fact.point == p && b.Node() in w.suffrages
    requires r == NewRecord(p, w.suffrages, w.Quorum()) || GrownFrom(w, es, n, a, p, r)
    ensures GrownFrom(w, es, n + 1, a, p, r')
  {
    var rs, bs := [r], [];
    if r != NewRecord(p, w.suffrages, w.Quorum()) {
      StillGrown(w, es, n, a, p, r);
      rs, bs :| EndOf(w, es, n + 1, a, p, r, rs, bs);
    }
    RunExtends(rs, bs, b, r');
    assert DeliveredBy(es, n + 1, a, b);
    assert EndOf(w, es, n + 1, a, p, r', rs + [r'], bs + [b]);
  }

  ghost predicate NetGrown(w: Setting, s: Net, es: seq<Event>, n: nat)
    requires w.Valid()
  {
    forall a, p, r :: Holds(s, a, p, r) ==> GrownFrom(w, es, n, a, p, r)
  }

  /** A record after an event is the one before, or it comes from a vote on that of its point. */
  lemma RecordBefore(w: Setting, s: Net, e: Event, s': Net, a: nat, p: Point, r': Record)
    requires w.Valid() && NetHolds(w, s) && NetStep(w, s, e, s') && Holds(s', a, p, r')
    ensures Holds(s, a, p, r') ||
            (e.Deliver? && e.box == a && a in s.boxes && e.ballot.fact.point == p && Admitted(w.Conf(), e.ballot)
             && VoteStep(RecordFor(w.Conf(), s.boxes[a].records, p), e.ballot, r'))
  {
    if e.Deliver? && e.box == a {
      var out :| BoxVote(w.Conf(), s.boxes[a], e.ballot, s'.boxes[a], out);
      if Admitted(w.Conf(), e.ballot) && VrsKey(p) == VrsKey(e.ballot.fact.point) {
        KeyInjective(p, e.ballot.fact.point);
      }
    }
  }

  lemma EventKeepsGrown(w: Setting, s: Net, es: seq<Event>, n: nat, s': Net)
    requires w.Valid() && n < |es| && NetHolds(w, s) && NetGrown(w, s, es, n) && NetStep(w, s, es[n], s')
    ensures NetGrown(w, s', es, n + 1)
  {
    forall a, p, r' | Holds(s', a, p, r') ensures GrownFrom(w, es, n + 1, a, p, r') {
      RecordBefore(w, s, es[n], s', a, p, r');
      if Holds(s, a, p, r') {
        StillGrown(w, es, n, a, p, r');
      } else {
        var r := RecordFor(w.Conf(), s.boxes[a].records, p);
        if VrsKey(p) in s.boxes[a].records {
          assert Holds(s, a, p, r);
        }
        GrowsByVote(w, es, n, a, p, r, es[n].ballot, r');
      }
    }
  }

  lemma {:induction false} RunGrows(w: Setting, ss: seq<Net>, es: seq<Event>, i: nat)
    requires w.Valid() && NetRun(w, ss, es) && i < |ss|
    ensures NetGrown(w, ss[i], es, i)
  {
    if i == 0 {
      NothingGrown(w, ss[0], es);
    } else {
      RunGrows(w, ss, es, i - 1);
      EventGrows(w, ss, es, i - 1);
    }
  }

  lemma NothingGrown(w: Setting, s: Net, es: seq<Event>)
    requires w.Valid() && forall i :: i in s.boxes ==> s.boxes[i] == EMPTY_BOX
    ensures NetGrown(w, s, es, 0)
  {
  }

  lemma EventGrows(w: Setting, ss: seq<Net>, es: seq<Event>, i: nat)
    requires w.Valid() && NetRun(w, ss, es) && i < |es| && NetGrown(w, ss[i], es, i)
    ensures NetGrown(w, ss[i + 1], es, i + 1)
  {
    RunKeepsNet(w, ss, es, i);
    EventAt(w, ss, es, i);
    EventKeepsGrown(w, ss[i], es, i, ss[i + 1]);
  }

  /** Every record of every box at every time of every run of the network is the end of a run of ballots that
      members sent for its point and that were delivered to that box. */
  lemma RecordIsRun(w: Setting, ss: seq<Net>, es: seq<Event>, i: nat, a: nat, p: Point, r: Record)
    returns (rs: seq<Record>, bs: seq<Ballot>)
    requires w.Valid() && NetRun(w, ss, es) && i < |ss| && Holds(ss[i], a, p, r)
    ensures EndOf(w, es, i, a, p, r, rs, bs)
  {
    RunGrows(w, ss, es, i);
    rs, bs :| EndOf(w, es, i, a, p, r, rs, bs);
  }

  // ---------------------------------------------------------------------------
  // What is delivered is heard

  /** The box has heard the node at the point. */
  ghost predicate HeardAt(s: Net, a: nat, p: Point, n: Address) {
    exists r :: Holds(s, a, p, r) && n in r.votes
  }

  /** A ballot that the box must take: of a member, in one of the two voting stages. */
  predicate Due(w: Setting, b: Ballot) {
    b.Node() in w.suffrages && (b.fact.point.stage == STAGE_INIT || b.fact.point.stage == STAGE_ACCEPT)
  }

  lemma DeliveryHeard(w: Setting, s: Net, a: nat, b: Ballot, s': Net)
    requires w.Valid() && NetStep(w, s, Deliver(a, b), s') && Due(w, b)
    ensures HeardAt(s', a, b.fact.point, b.Node())
  {
    var out :| BoxVote(w.Conf(), s.boxes[a], b, s'.boxes[a], out);
    OthersChangeNothing(w.Conf(), s.boxes[a], b, s'.boxes[a], out);
    var p := b.fact.point;
    var r' := s'.boxes[a].records[VrsKey(p)];
    VotesKept(RecordFor(w.Conf(), s.boxes[a].records, p), b, r');
    assert Holds(s', a, p, r');
  }

  lemma VotesKept(r: Record, b: Ballot, r': Record)
    requires VoteStep(r, b, r')
    ensures b.Node() in r'.votes && forall n :: n in r.votes ==> n in r'.votes && r'.votes[n] == r.votes[n]
  {
  }

  lemma HearingStays(w: Setting, s: Net, e: Event, s': Net, a: nat, p: Point, n: Address)
    requires w.Valid() && NetHolds(w, s) && NetStep(w, s, e, s') && !Removes(e, a, p) && HeardAt(s, a, p, n)
    ensures HeardAt(s', a, p, n)
  {
    var r :| Holds(s, a, p, r) && n in r.votes;
    if e.Deliver? && e.box == a {
      var r' := RecordAfter(w, s, e.ballot, s', a, p, r);
    } else {
      OthersKeep(w, s, e, s', a, p, r);
    }
  }

  /** A delivery leaves the record of a point or votes on it. */
  lemma RecordAfter(w: Setting, s: Net, b: Ballot, s': Net, a: nat, p: Point, r: Record) returns (r': Record)
    requires w.Valid() && NetStep(w, s, Deliver(a, b), s') && Holds(s, a, p, r)
    ensures Holds(s', a, p, r') && forall n :: n in r.votes ==> n in r'.votes
  {
    var out :| BoxVote(w.Conf(), s.boxes[a], b, s'.boxes[a], out);
    r' := s'.boxes[a].records[VrsKey(p)];
    if Admitted(w.Conf(), b) && VrsKey(b.fact.point) == VrsKey(p) {
      KeyInjective(b.fact.point, p);
      VotesKept(r, b, r');
    }
  }

  /** What is delivered is heard: in every run a due ballot that an event delivers to a box is among the votes of
      the record of its point at every later time, until the record is removed. */
  lemma {:induction false} DeliveredIsHeard(w: Setting, ss: seq<Net>, es: seq<Event>, k: nat, m: nat, a: nat, b: Ballot)
    requires w.Valid() && NetRun(w, ss, es) && k < m < |ss| && es[k] == Deliver(a, b) && Due(w, b)
    requires forall j :: k < j < m ==> !Removes(es[j], a, b.fact.point)
    ensures HeardAt(ss[m], a, b.fact.point, b.Node())
    decreases m
  {
    if k == m - 1 {
      EventAt(w, ss, es, k);
      DeliveryHeard(w, ss[k], a, b, ss[m]);
    } else {
      DeliveredIsHeard(w, ss, es, k, m - 1, a, b);
      HearingStaysAt(w, ss, es, m - 1, a, b.fact.point, b.Node());
    }
  }

  lemma HearingStaysAt(w: Setting, ss: seq<Net>, es: seq<Event>, i: nat, a: nat, p: Point, n: Address)
    requires w.Valid() && NetRun(w, ss, es) && i < |es| && !Removes(es[i], a, p) && HeardAt(ss[i], a, p, n)
    ensures HeardAt(ss[i + 1], a, p, n)
  {
    EventAt(w, ss, es, i);
    RunKeepsNet(w, ss, es, i);
    HearingStays(w, ss[i], es[i], ss[i + 1], a, p, n);
  }

  /** An event before `i` delivered a due ballot of the node for the point to the box, and the record has not been
      removed since. */
  ghost predicate DeliveredSince(w: Setting, es: seq<Event>, i: nat, a: nat, p: Point, n: Address) {
    exists k, b :: 0 <= k < i && k < |es| && es[k] == Deliver(a, b) && b.Node() == n && b.fact.point == p && Due(w, b)
                   && NotRemovedSince(es, k, i, a, p)
  }

  ghost predicate NotRemovedSince(es: seq<Event>, k: nat, i: nat, a: nat, p: Point) {
    forall j :: k < j < i && j < |es| ==> !Removes(es[j], a, p)
  }

  /** Progress over deliveries: if the members that are not faulty make a quorum and the faulty do not, and the
      former cast only `h` at a point, then every box to which a ballot of each of them was delivered holds
      MAJORITY on `h` there, whatever else was delivered, in whatever order. */
  lemma DeliveredQuorumWins(w: Setting, ss: seq<Net>, es: seq<Event>, i: nat, a: nat, p: Point, h: Hash) returns (r: Record)
    requires w.Valid() && |w.FaultyMembers()| < w.Quorum().threshold <= |w.suffrages| - |w.FaultyMembers()|
    requires NetRun(w, ss, es) && i < |ss| && OnlyCast(ss[|es|], p, h)
    requires forall n :: n in w.Members() && n !in w.faulty ==> DeliveredSince(w, es, i, a, p, n)
    ensures Holds(ss[i], a, p, r)
    ensures r.voteproof.result == Majority && r.voteproof.majority.Some? && r.voteproof.majority.value.hash == h
  {
    var honest := w.Members() - w.faulty;
    forall n | n in honest ensures HeardAt(ss[i], a, p, n) {
      var k, b :| 0 <= k < i && k < |es| && es[k] == Deliver(a, b) && b.Node() == n && b.fact.point == p && Due(w, b)
                  && NotRemovedSince(es, k, i, a, p);
      DeliveredIsHeard(w, ss, es, k, i, a, b);
    }
    SettingQuorate(w);
    assert |w.Members()| == |honest| + |w.FaultyMembers()|;
    var n :| n in honest;
    assert HeardAt(ss[i], a, p, n);
    r :| Holds(ss[i], a, p, r);
    forall m | m in honest ensures m in r.votes {
      assert HeardAt(ss[i], a, p, m);
    }
    ProgressDespiteFaults(w, ss, es, i, a, p, r, h);
  }

  // ---------------------------------------------------------------------------
  // The latest ballot

  /** The ballot was delivered to the box by an event before `i`, and the box has not been emptied since. */
  ghost predicate TakenSince(w: Setting, es: seq<Event>, i: nat, a: nat, b: Ballot) {
    exists k :: 0 <= k < i && k < |es| && es[k] == Deliver(a, b) && Due(w, b) && NotEmptiedSince(es, k, i, a)
  }

  ghost predicate NotEmptiedSince(es: seq<Event>, k: nat, i: nat, a: nat) {
    forall j :: k < j < i && j < |es| ==> es[j] != Empty(a)
  }

  /** The ballot is the latest of those that the box took: one of them, and no other is of a point after its own. */
  ghost predicate LatestOf(w: Setting, es: seq<Event>, i: nat, a: nat, latest: Option<Ballot>) {
    && (latest.Some? ==> TakenSince(w, es, i, a, latest.value))
    && (forall b :: TakenSince(w, es, i, a, b) ==> latest.Some? && NotAfter(b.fact.point, latest.value.fact.point))
  }

  /** A later event adds the ballot it delivers, or takes all away. */
  lemma TakenNext(w: Setting, es: seq<Event>, i: nat, a: nat, b: Ballot)
    requires i < |es|
    ensures TakenSince(w, es, i + 1, a, b) <==>
              es[i] != Empty(a) && (TakenSince(w, es, i, a, b) || (es[i] == Deliver(a, b) && Due(w, b)))
  {
    if TakenSince(w, es, i + 1, a, b) {
      var k :| 0 <= k < i + 1 && k < |es| && es[k] == Deliver(a, b) && Due(w, b) && NotEmptiedSince(es, k, i + 1, a);
      assert k < i ==> NotEmptiedSince(es, k, i, a);
    }
    if es[i] != Empty(a) && TakenSince(w, es, i, a, b) {
      var k :| 0 <= k < i && k < |es| && es[k] == Deliver(a, b) && Due(w, b) && NotEmptiedSince(es, k, i, a);
      assert NotEmptiedSince(es, k, i + 1, a);
    }
    if es[i] == Deliver(a, b) {
      assert NotEmptiedSince(es, i, i + 1, a);
    }
  }

  lemma LatestNext(w: Setting, s: Net, es: seq<Event>, i: nat, s': Net, a: nat)
    requires w.Valid() && i < |es| && NetStep(w, s, es[i], s') && a in s.boxes && a in s'.boxes
    requires LatestOf(w, es, i, a, s.boxes[a].latest)
    ensures LatestOf(w, es, i + 1, a, s'.boxes[a].latest)
  {
    var latest, latest' := s.boxes[a].latest, s'.boxes[a].latest;
    if latest'.Some? {
      TakenNext(w, es, i, a, latest'.value);
    }
    if es[i].Deliver? && es[i].box == a {
      var d := es[i].ballot;
      var out :| BoxVote(w.Conf(), s.boxes[a], d, s'.boxes[a], out);
      assert latest' == if Due(w, d) then Later(latest, d) else latest;
    }
    forall b | TakenSince(w, es, i + 1, a, b)
      ensures latest'.Some? && NotAfter(b.fact.point, latest'.value.fact.point)
    {
      TakenNext(w, es, i, a, b);
      if latest.Some? && latest'.Some? {
        PointsInOrder(b.fact.point, latest.value.fact.point, latest'.value.fact.point);
      }
    }
  }

  /** In every run the latest ballot of a box is, at every time, the one of the highest point of those delivered to
      it since it was last emptied; cleaning does not take it away. */
  lemma {:induction false} LatestIsHighest(w: Setting, ss: seq<Net>, es: seq<Event>, i: nat, a: nat)
    requires w.Valid() && NetRun(w, ss, es) && i < |ss| && a in ss[i].boxes
    ensures LatestOf(w, es, i, a, ss[i].boxes[a].latest)
  {
    if i > 0 {
      EventAt(w, ss, es, i - 1);
      LatestIsHighest(w, ss, es, i - 1, a);
      LatestNext(w, ss[i - 1], es, i - 1, ss[i], a);
    }
  }

  // ---------------------------------------------------------------------------
  // What boxes issue

  /** Every ballot that is delivered passed its own checks. */
  ghost predicate ValidDeliveries(es: seq<Event>) {
    forall i :: 0 <= i < |es| && es[i].Deliver? ==> ValidBallot(es[i].ballot)
  }

  predicate ValidBallot(b: Ballot) {
    b.fact.valid && b.sign.valid && b.fact.point.height >= PRE_GENESIS_HEIGHT
  }

  lemma BoxRun(w: Setting, ss: seq<Net>, es: seq<Event>, i: nat, a: nat, p: Point, r: Record)
    returns (rs: seq<Record>, bs: seq<Ballot>)
    requires w.Valid() && NetRun(w, ss, es) && i < |ss| && Holds(ss[i], a, p, r) && ValidDeliveries(es)
    ensures SuffrageRun(rs, bs, w.suffrages, w.ratio, w.Quorum(), p) && rs[|bs|] == r
  {
    rs, bs := RecordIsRun(w, ss, es, i, a, p, r);
    forall b | b in bs ensures ValidBallot(b) {
      var k :| 0 <= k < i && k < |es| && es[k] == Deliver(a, b);
      assert es[k].Deliver?;
    }
    assert bs[0] in bs;
  }

  /** In every run of every network with a threshold above one half and valid ballots, every finished voteproof
      that any box holds at any time is decisive and acceptable, so that every validator accepts it. */
  lemma BoxIssuesAccepted(w: Setting, ss: seq<Net>, es: seq<Event>, i: nat, a: nat, p: Point, r: Record)
    requires w.Valid() && AboveHalf(w.Quorum()) && ValidDeliveries(es)
    requires NetRun(w, ss, es) && i < |ss| && Holds(ss[i], a, p, r) && r.voteproof.IsFinished()
    ensures |r.voteproof.suffrages| < UINT_MODULUS && Decisive(r.voteproof) && Acceptable(r.voteproof)
  {
    var rs, bs := BoxRun(w, ss, es, i, a, p, r);
    IssuedIsAccepted(rs, bs, w.suffrages, w.ratio, w.Quorum(), p, |bs|);
  }

  /** Nothing is made up: every signed fact that the voteproof of a box lists was delivered to this box, with its own
      fact and signature, in a ballot of a member for this point. */
  lemma ListedWasDelivered(w: Setting, ss: seq<Net>, es: seq<Event>, i: nat, a: nat, p: Point, r: Record, v: SignedBallotFact)
    requires w.Valid() && NetRun(w, ss, es) && i < |ss| && Holds(ss[i], a, p, r) && v in r.voteproof.votes
    ensures v.fact.point == p && v.sign.node in w.suffrages
    ensures exists k :: 0 <= k < i && k < |es| && es[k] == Deliver(a, Ballot.Ballot(v.fact, v.sign))
  {
    var rs, bs := RecordIsRun(w, ss, es, i, a, p, r);
    ListedWasSent(rs, bs, |bs|);
    assert Sent(bs, v);
    var b :| b in bs && b.fact == v.fact && b.sign == v.sign;
    assert DeliveredBy(es, i, a, b);
  }

  /** And, at every ratio, every MAJORITY is backed by a quorum of distinct members. */
  lemma BoxIssuesBacked(w: Setting, ss: seq<Net>, es: seq<Event>, i: nat, a: nat, p: Point, r: Record)
    requires w.Valid() && ValidDeliveries(es)
    requires NetRun(w, ss, es) && i < |ss| && Holds(ss[i], a, p, r) && r.voteproof.result == Majority
    ensures r.voteproof.majority.Some? && Backed(r.voteproof, w.Quorum())
  {
    var rs, bs := BoxRun(w, ss, es, i, a, p, r);
    IssuedIsBacked(rs, bs, w.suffrages, w.ratio, w.Quorum(), p, |bs|);
  }

  // ---------------------------------------------------------------------------
  // Handing over

  /** The box holds a finished voteproof for the point. */
  ghost predicate FinishedAt(s: Net, a: nat, p: Point) {
    exists r :: Holds(s, a, p, r) && r.voteproof.IsFinished()
  }

  /** The event delivers a ballot for the point to the box, and what the box then holds and returns is finished
      and not closed. */
  ghost predicate HandsOver(w: Setting, e: Event, s': Net, a: nat, p: Point)
    requires w.Valid()
  {
    && e.Deliver? && e.box == a && e.ballot.fact.point == p && Admitted(w.Conf(), e.ballot)
    && exists r :: Holds(s', a, p, r) && r.voteproof.IsFinished() && !r.voteproof.closed
  }

  /** The event takes the record of the point out of the box. */
  predicate Removes(e: Event, a: nat, p: Point) {
    e == Empty(a) || (e.Clean? && e.box == a && p.height <= e.height)
  }

  lemma FinishedStays(w: Setting, s: Net, e: Event, s': Net, a: nat, p: Point)
    requires w.Valid() && NetHolds(w, s) && NetStep(w, s, e, s') && !Removes(e, a, p) && FinishedAt(s, a, p)
    ensures FinishedAt(s', a, p) && !HandsOver(w, e, s', a, p)
  {
    var r :| Holds(s, a, p, r) && r.voteproof.IsFinished();
    if e.Deliver? && e.box == a {
      DeliveryKeepsFinished(w, s, e.ballot, s', a, p, r);
    } else {
      OthersKeep(w, s, e, s', a, p, r);
    }
  }

  /** An event that neither delivers to the box nor removes the record leaves it. */
  lemma OthersKeep(w: Setting, s: Net, e: Event, s': Net, a: nat, p: Point, r: Record)
    requires w.Valid() && NetHolds(w, s) && NetStep(w, s, e, s') && !Removes(e, a, p) && Holds(s, a, p, r)
    requires !(e.Deliver? && e.box == a)
    ensures Holds(s', a, p, r)
  {
    if e.Clean? && e.box == a {
      assert BoxHolds(w, s.cast, s.boxes[a]);
      assert OfPoint(VrsKey(p), r);
      KeyInjective(p, r.voteproof.point);
    }
  }

  lemma DeliveryKeepsFinished(w: Setting, s: Net, b: Ballot, s': Net, a: nat, p: Point, r: Record)
    requires w.Valid() && NetStep(w, s, Deliver(a, b), s') && Holds(s, a, p, r) && r.voteproof.IsFinished()
    ensures FinishedAt(s', a, p) && !HandsOver(w, Deliver(a, b), s', a, p)
  {
    var out :| BoxVote(w.Conf(), s.boxes[a], b, s'.boxes[a], out);
    if !Admitted(w.Conf(), b) {
      assert Holds(s', a, p, r);
    } else if VrsKey(b.fact.point) == VrsKey(p) {
      KeyInjective(b.fact.point, p);
      var r' := s'.boxes[a].records[VrsKey(p)];
      VoteOnFinished(r, b, r');
      assert Holds(s', a, p, r');
    } else {
      assert Holds(s', a, p, r);
    }
  }

  /** A vote on a finished record closes it, if it is not closed. */
  lemma VoteOnFinished(r: Record, b: Ballot, r': Record)
    requires r.voteproof.IsFinished() && VoteStep(r, b, r')
    ensures r'.voteproof.IsFinished() && r'.voteproof.closed
  {
    if b.Node() !in r.votes && r.voteproof.closed {
      ClosedOnlyOnce(r, b, r');
    }
  }

  lemma {:induction false} FinishedUntil(w: Setting, ss: seq<Net>, es: seq<Event>, i: nat, j: nat, a: nat, p: Point)
    requires w.Valid() && NetRun(w, ss, es) && i <= j < |ss| && FinishedAt(ss[i], a, p)
    requires forall k :: i <= k < j ==> !Removes(es[k], a, p)
    ensures FinishedAt(ss[j], a, p)
    decreases j
  {
    if i < j {
      FinishedUntil(w, ss, es, i, j - 1, a, p);
      RunKeepsNet(w, ss, es, j - 1);
      EventAt(w, ss, es, j - 1);
      FinishedStays(w, ss[j - 1], es[j - 1], ss[j], a, p);
    }
  }

  /** Single hand-over by a box: if a box hands over twice for a point, the record was removed in between. */
  lemma HandOverOnce(w: Setting, ss: seq<Net>, es: seq<Event>, i: nat, j: nat, a: nat, p: Point)
    requires w.Valid() && NetRun(w, ss, es) && i < j < |es|
    requires HandsOver(w, es[i], ss[i + 1], a, p) && HandsOver(w, es[j], ss[j + 1], a, p)
    ensures exists k :: i < k < j && Removes(es[k], a, p)
  {
    if forall k :: i < k < j ==> !Removes(es[k], a, p) {
      assert FinishedAt(ss[i + 1], a, p);
      FinishedUntil(w, ss, es, i + 1, j, a, p);
      RunKeepsNet(w, ss, es, j);
      EventAt(w, ss, es, j);
      FinishedStays(w, ss[j], es[j], ss[j + 1], a, p);
    }
  }

  /** A quorum of ballots for one fact, and no more, leaves the record finished and not closed. */
  lemma QuorumHandsOver(w: Setting, rs: seq<Record>, ns: seq<Address>)
    requires w.Valid() && Distinct(ns) && Elements(ns) <= w.Members() && |ns| == w.Quorum().threshold >= 1
    requires Run(rs, BallotsBy(ns, Common)) && rs[0] == NewRecord(POINT, w.suffrages, w.Quorum())
    ensures rs[|ns|].voteproof.IsFinished() && !rs[|ns|].voteproof.closed
  {
    QuorumFinishes(w, rs, ns);
    LastIsOpen(w, rs, ns);
    OpenAfter(rs, BallotsBy(ns, Common), |ns| - 1);
  }

  lemma QuorumFinishes(w: Setting, rs: seq<Record>, ns: seq<Address>)
    requires w.Valid() && Distinct(ns) && Elements(ns) <= w.Members() && |ns| == w.Quorum().threshold >= 1
    requires Run(rs, BallotsBy(ns, Common)) && rs[0] == NewRecord(POINT, w.suffrages, w.Quorum())
    ensures rs[|ns|].voteproof.IsFinished()
  {
    RunSound(w, rs, ns, POINT, Common);
    RunHears(rs, ns, Common);
    DistinctSize(ns);
    UnanimousWins(rs[|ns|], w.Members(), Elements(ns), Common, Common(ns[0]).hash);
  }

  lemma OpenAfter(rs: seq<Record>, bs: seq<Ballot>, i: nat)
    requires Run(rs, bs) && i < |bs| && bs[i].Node() !in rs[i].votes
    requires rs[i].voteproof.result == NotYet && !rs[i].voteproof.closed
    ensures !rs[i + 1].voteproof.closed
  {
    assert StepAt(rs, bs, i);
    ClosedOnlyOnce(rs[i], bs[i], rs[i + 1]);
  }

  /** One ballot short of the quorum the record is neither finished nor closed. */
  lemma LastIsOpen(w: Setting, rs: seq<Record>, ns: seq<Address>)
    requires w.Valid() && Distinct(ns) && Elements(ns) <= w.Members() && |ns| == w.Quorum().threshold >= 1
    requires Run(rs, BallotsBy(ns, Common)) && rs[0] == NewRecord(POINT, w.suffrages, w.Quorum())
    ensures var r := rs[|ns| - 1]; r.voteproof.result == NotYet && !r.voteproof.closed && ns[|ns| - 1] !in r.votes
  {
    var front := ns[..|ns| - 1];
    assert BallotsBy(front, Common) == BallotsBy(ns, Common)[..|ns| - 1];
    var rs0 := rs[..|ns|];
    forall i | 0 <= i < |front| ensures StepAt(rs0, BallotsBy(front, Common), i) {
      assert StepAt(rs, BallotsBy(ns, Common), i);
    }
    assert Elements(front) <= Elements(ns);
    RunSound(w, rs0, front, POINT, Common);
    RunHears(rs0, front, Common);
    DistinctSize(front);
    TallyFits(rs0[|front|], w.Members());
  }

  /** A network in which box 0 is empty goes on to one whose last event hands over. */
  lemma HandOverNext(w: Setting, ss: seq<Net>, es: seq<Event>, ns: seq<Address>) returns (ss': seq<Net>, es': seq<Event>)
    requires w.Valid() && Distinct(ns) && Elements(ns) <= w.Members() && |ns| == w.Quorum().threshold >= 1
    requires NetRun(w, ss, es) && 0 in ss[|es|].boxes && ss[|es|].boxes[0] == EMPTY_BOX
    requires Deliverable(w, ss[|es|], POINT, BallotsBy(ns, Common))
    ensures NetRun(w, ss', es') && ss <= ss' && es <= es' && |es| < |es'|
    ensures HandsOver(w, es'[|es'| - 1], ss'[|es'|], 0, POINT)
    ensures ss'[|es'|].cast == ss[|es|].cast && 0 in ss'[|es'|].boxes
  {
    var bs := BallotsBy(ns, Common);
    var rs;
    ss', es', rs := DeliverRun(w, ss, es, 0, POINT, bs);
    QuorumHandsOver(w, rs, ns);
    assert ns[|ns| - 1] in Elements(ns);
    assert Holds(ss'[|es'|], 0, POINT, rs[|bs|]);
  }

  /** Removing the record is enough: in every setting some box hands over twice for a point, with the box emptied
      in between. */
  lemma HandOverRepeats(w: Setting) returns (ss: seq<Net>, es: seq<Event>, i: nat, j: nat)
    requires w.Valid()
    ensures NetRun(w, ss, es) && i < j < |es|
    ensures HandsOver(w, es[i], ss[i + 1], 0, POINT) && HandsOver(w, es[j], ss[j + 1], 0, POINT)
  {
    SettingQuorate(w);
    var ns, s0 := QuorumCast(w);
    var ss0, es0 :| ReachedBy(w, s0, ss0, es0);
    var ss1, es1 := HandOverNext(w, ss0, es0, ns);
    var s1 := ss1[|es1|];
    var s2 := s1.(boxes := s1.boxes[0 := EMPTY_BOX]);
    NetRunExtends(w, ss1, es1, Empty(0), s2);
    assert (ss1 + [s2])[|es1 + [Empty(0)]|] == s2;
    assert Deliverable(w, s2, POINT, BallotsBy(ns, Common));
    ss, es := HandOverNext(w, ss1 + [s2], es1 + [Empty(0)], ns);
    i, j := |es1| - 1, |es| - 1;
    assert es[i] == (es1 + [Empty(0)])[i] == es1[i] && ss[i + 1] == (ss1 + [s2])[i + 1] == s1;
  }

  /** A quorum can have cast one fact. */
  lemma QuorumCast(w: Setting) returns (ns: seq<Address>, s: Net)
    requires w.Valid()
    ensures Distinct(ns) && Elements(ns) <= w.Members() && |ns| == w.Quorum().threshold
    ensures Reachable(w, s) && s.boxes == TWO_EMPTY_BOXES.boxes && Deliverable(w, s, POINT, BallotsBy(ns, Common))
  {
    SettingQuorate(w);
    var quorum := TakeSome(w.Members(), w.Quorum().threshold);
    ns := ListSet(quorum);
    ElementsOf(ns, quorum);
    var honest := ListSet(quorum - w.faulty);
    s := CastAll(w, honest, POINT, Common);
    CanDeliver(w, s, honest, POINT, Common, ns, Common);
  }
}
