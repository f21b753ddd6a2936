/** Many ballotboxes over one suffrage: safety of the ISAAC vote, with isaac/ballotbox.go and
    isaac/voterecords.go at every node, and base/threshold.go and base/suffrage.go for the quorum. */
module Network {
  import opened Base
  import opened Quorum
  import opened VoteCount
  import opened Voteproofs
  import opened Records
  import opened Keys
  import opened Ballotboxes

  /** A suffrage with a threshold built from it, and the nodes that may send different facts of one
      point to different boxes. */
  datatype Setting = Setting(suffrages: seq<Address>, ratio: real, faulty: set<Address>) {
    ghost predicate Valid() {
      && Distinct(suffrages)
      && |suffrages| < UINT_MODULUS
      && NewThreshold(|suffrages|, ratio).Ok?
    }
    ghost function Quorum(): Threshold
      requires Valid()
    {
      NewThreshold(|suffrages|, ratio).value
    }
    ghost function Conf(): Config
      requires Valid()
    {
      Config(suffrages, Quorum())
    }
    ghost function Members(): set<Address> {
      Elements(suffrages)
    }
    ghost function FaultyMembers(): set<Address> {
      Members() * faulty
    }
  }

  /** `cast` is what each node that is not faulty has voted at each point. */
  datatype Net = Net(cast: map<(Address, Point), Hash>, boxes: map<nat, Box>)

  datatype Event =
    | Cast(node: Address, point: Point, hash: Hash)
    | Deliver(box: nat, ballot: Ballot)
    | Clean(box: nat, height: Int64)
    | Empty(box: nat)

  /** A node that is not faulty signs one fact for each point. */
  ghost predicate Authentic(w: Setting, s: Net, b: Ballot) {
    b.Node() in w.faulty ||
    ((b.Node(), b.fact.point) in s.cast && s.cast[(b.Node(), b.fact.point)] == b.fact.hash)
  }

  /** One event: a node votes, a ballot is delivered (once, again, or never, in any order, to any
      box), a box is cleaned up to a height, or a box is emptied. */
  ghost predicate NetStep(w: Setting, s: Net, e: Event, s': Net)
    requires w.Valid()
  {
    match e
    case Cast(n, p, h) =>
      n !in w.faulty && (n, p) !in s.cast && s' == s.(cast := s.cast[(n, p) := h])
    case Deliver(i, b) =>
      && i in s.boxes && i in s'.boxes && Authentic(w, s, b)
      && s' == s.(boxes := s.boxes[i := s'.boxes[i]])
      && exists out :: BoxVote(w.Conf(), s.boxes[i], b, s'.boxes[i], out)
    case Clean(i, height) =>
      i in s.boxes && s' == s.(boxes := s.boxes[i := s.boxes[i].(records := Above(s.boxes[i].records, height))])
    case Empty(i) =>
      i in s.boxes && s' == s.(boxes := s.boxes[i := EMPTY_BOX])
  }

  ghost predicate NetStepAt(w: Setting, ss: seq<Net>, es: seq<Event>, i: nat)
    requires w.Valid() && i < |es| && |ss| == |es| + 1
  {
    NetStep(w, ss[i], es[i], ss[i + 1])
  }

  /** A run from empty boxes. */
  ghost predicate NetRun(w: Setting, ss: seq<Net>, es: seq<Event>)
    requires w.Valid()
  {
    && |ss| == |es| + 1
    && ss[0].cast == map[]
    && (forall i :: i in ss[0].boxes ==> ss[0].boxes[i] == EMPTY_BOX)
    && forall i :: 0 <= i < |es| ==> NetStepAt(w, ss, es, i)
  }

  // ---------------------------------------------------------------------------
  // The invariant

  /** The votes of nodes that are not faulty are what these nodes cast. */
  ghost predicate Heard(w: Setting, cast: map<(Address, Point), Hash>, r: Record) {
    forall n :: n in r.votes && n !in w.faulty ==>
      (n, r.voteproof.point) in cast && cast[(n, r.voteproof.point)] == r.votes[n]
  }

  ghost predicate RecordHolds(w: Setting, cast: map<(Address, Point), Hash>, r: Record)
    requires w.Valid()
  {
    && Sound(r, w.Members())
    && r.threshold == w.Quorum()
    && Heard(w, cast, r)
  }

  ghost predicate BoxHolds(w: Setting, cast: map<(Address, Point), Hash>, box: Box)
    requires w.Valid()
  {
    Keyed(box.records) && forall k :: k in box.records ==> RecordHolds(w, cast, box.records[k])
  }

  ghost predicate NetHolds(w: Setting, s: Net)
    requires w.Valid()
  {
    forall i :: i in s.boxes ==> BoxHolds(w, s.cast, s.boxes[i])
  }

  lemma SettingQuorate(w: Setting)
    requires w.Valid()
    ensures |w.Members()| == w.Quorum().total
    ensures 1 <= w.Quorum().threshold <= w.Quorum().total
  {
    DistinctSize(w.suffrages);
    QuorumComplement(|w.suffrages|, w.ratio);
  }

  lemma VoteKeepsRecord(w: Setting, s: Net, r: Record, b: Ballot, r': Record)
    requires w.Valid() && RecordHolds(w, s.cast, r) && VoteStep(r, b, r')
    requires b.Node() in w.Members() && b.fact.point == r.voteproof.point && Authentic(w, s, b)
    ensures RecordHolds(w, s.cast, r')
  {
    StepKeepsAll(r, b, r', w.Members());
    VoteKeepsHeard(w, s, r, b, r');
  }

  lemma VoteKeepsHeard(w: Setting, s: Net, r: Record, b: Ballot, r': Record)
    requires Heard(w, s.cast, r) && VoteStep(r, b, r')
    requires b.fact.point == r.voteproof.point && Authentic(w, s, b)
    ensures Heard(w, s.cast, r') && r'.threshold == r.threshold
  {
    var finishes, counted, result, key := StepCases(r, b, r');
  }

  lemma DeliverKeepsBox(w: Setting, s: Net, box: Box, b: Ballot, box': Box, out: Result<Voteproof>)
    requires w.Valid() && BoxHolds(w, s.cast, box) && Authentic(w, s, b)
    requires BoxVote(w.Conf(), box, b, box', out)
    ensures BoxHolds(w, s.cast, box')
  {
    VoteKeepsKeyed(w.Conf(), box, b, box', out);
    if Admitted(w.Conf(), b) {
      var p := b.fact.point;
      MetRecordHolds(w, s.cast, box, p);
      VoteKeepsRecord(w, s, RecordFor(w.Conf(), box.records, p), b, box'.records[VrsKey(p)]);
    }
  }

  /** The record that a ballot meets, stored or new. */
  lemma MetRecordHolds(w: Setting, cast: map<(Address, Point), Hash>, box: Box, p: Point)
    requires w.Valid() && BoxHolds(w, cast, box)
    ensures RecordHolds(w, cast, RecordFor(w.Conf(), box.records, p))
    ensures RecordFor(w.Conf(), box.records, p).voteproof.point == p
  {
    var key := VrsKey(p);
    if key in box.records {
      assert OfPoint(key, box.records[key]);
      KeyInjective(p, box.records[key].voteproof.point);
    } else {
      SettingQuorate(w);
      NewRecordHolds(p, w.suffrages, w.Quorum(), w.Members());
    }
  }

  lemma StepKeepsNet(w: Setting, s: Net, e: Event, s': Net)
    requires w.Valid() && NetHolds(w, s) && NetStep(w, s, e, s')
    ensures NetHolds(w, s')
    ensures forall c :: c in s.cast ==> c in s'.cast && s'.cast[c] == s.cast[c]
  {
    match e
    case Cast(n, p, h) =>
      forall i | i in s'.boxes ensures BoxHolds(w, s'.cast, s'.boxes[i]) {
        CastKeepsBox(w, s.cast, s'.cast, s.boxes[i]);
      }
    case Deliver(i, b) =>
      var out :| BoxVote(w.Conf(), s.boxes[i], b, s'.boxes[i], out);
      DeliverKeepsBox(w, s, s.boxes[i], b, s'.boxes[i], out);
    case Clean(i, height) =>
      assert BoxHolds(w, s.cast, s.boxes[i]);
    case Empty(i) =>
  }

  lemma CastKeepsBox(w: Setting, cast: map<(Address, Point), Hash>, cast': map<(Address, Point), Hash>, box: Box)
    requires w.Valid() && BoxHolds(w, cast, box)
    requires forall c :: c in cast ==> c in cast' && cast'[c] == cast[c]
    ensures BoxHolds(w, cast', box)
  {
    forall k | k in box.records ensures RecordHolds(w, cast', box.records[k]) {
      assert RecordHolds(w, cast, box.records[k]);
    }
  }

  lemma {:induction false} RunKeepsNet(w: Setting, ss: seq<Net>, es: seq<Event>, i: nat)
    requires w.Valid() && NetRun(w, ss, es) && i < |ss|
    ensures NetHolds(w, ss[i])
  {
    if i == 0 {
      EmptyNetHolds(w, ss[0]);
    } else {
      RunKeepsNet(w, ss, es, i - 1);
      EventAt(w, ss, es, i - 1);
      StepKeepsNet(w, ss[i - 1], es[i - 1], ss[i]);
    }
  }

  lemma EventAt(w: Setting, ss: seq<Net>, es: seq<Event>, i: nat)
    requires w.Valid() && NetRun(w, ss, es) && i < |es|
    ensures NetStep(w, ss[i], es[i], ss[i + 1])
  {
    assert NetStepAt(w, ss, es, i);
  }

  lemma EmptyNetHolds(w: Setting, s: Net)
    requires w.Valid() && forall i :: i in s.boxes ==> s.boxes[i] == EMPTY_BOX
    ensures NetHolds(w, s)
  {
  }

  ghost predicate CastMore(s: Net, s': Net) {
    forall c :: c in s.cast ==> c in s'.cast && s'.cast[c] == s.cast[c]
  }

  lemma EventKeepsNet(w: Setting, ss: seq<Net>, es: seq<Event>, i: nat)
    requires w.Valid() && NetRun(w, ss, es) && i < |es| && NetHolds(w, ss[i])
    ensures NetHolds(w, ss[i + 1]) && CastMore(ss[i], ss[i + 1])
  {
    EventAt(w, ss, es, i);
    StepKeepsNet(w, ss[i], es[i], ss[i + 1]);
  }

  lemma {:induction false} CastGrows(w: Setting, ss: seq<Net>, es: seq<Event>, i: nat, j: nat)
    requires w.Valid() && NetRun(w, ss, es) && i <= j < |ss|
    ensures CastMore(ss[i], ss[j])
    decreases j
  {
    if i < j {
      CastGrows(w, ss, es, i, j - 1);
      RunKeepsNet(w, ss, es, j - 1);
      EventKeepsNet(w, ss, es, j - 1);
    }
  }

  // ---------------------------------------------------------------------------
  // Agreement and exclusion

  /** The record that box `i` holds for the point `p` in the state `s`. */
  ghost predicate Holds(s: Net, i: nat, p: Point, r: Record) {
    i in s.boxes && VrsKey(p) in s.boxes[i].records && s.boxes[i].records[VrsKey(p)] == r
  }

  /** A record of any time of a run, checked against what is cast at its end. */
  lemma RecordInRun(w: Setting, ss: seq<Net>, es: seq<Event>, i: nat, a: nat, p: Point, r: Record)
    requires w.Valid() && NetRun(w, ss, es) && i < |ss| && Holds(ss[i], a, p, r)
    ensures RecordHolds(w, ss[|es|].cast, r) && r.voteproof.point == p
  {
    RunKeepsNet(w, ss, es, i);
    CastGrows(w, ss, es, i, |es|);
    var box := ss[i].boxes[a];
    assert BoxHolds(w, ss[i].cast, box);
    CastKeepsBox(w, ss[i].cast, ss[|es|].cast, box);
    assert OfPoint(VrsKey(p), r);
    KeyInjective(p, r.voteproof.point);
  }

  /** A majority has a quorum of voters behind it. */
  lemma MajoritySupport(r: Record)
    requires Consistent(r) && Settled(r) && r.voteproof.result == Majority
    ensures |Supporters(r.votes, r.voteproof.majority.value.hash)| >= r.threshold.threshold
  {
    var ns :| CountedFrom(r, ns);
    CountedSupport(r, ns, r.voteproof.majority.value.hash);
  }

  /** Two records over one suffrage whose common voters disagree only if they are among `two` hold
      the same majority, provided two quorums overlap in more nodes than that. */
  lemma OneMajority(r1: Record, r2: Record, members: set<Address>, two: set<Address>)
    requires Consistent(r1) && Settled(r1) && r1.voteproof.result == Majority && r1.votes.Keys <= members
    requires Consistent(r2) && Settled(r2) && r2.voteproof.result == Majority && r2.votes.Keys <= members
    requires r1.threshold == r2.threshold && |two| < 2 * r1.threshold.threshold - |members|
    requires forall n :: n in r1.votes && n in r2.votes && n !in two ==> r1.votes[n] == r2.votes[n]
    ensures r1.voteproof.majority.value.hash == r2.voteproof.majority.value.hash
  {
    var h1, h2 := r1.voteproof.majority.value.hash, r2.voteproof.majority.value.hash;
    var q1, q2 := Supporters(r1.votes, h1), Supporters(r2.votes, h2);
    MajoritySupport(r1);
    MajoritySupport(r2);
    Overlap(q1, q2, members);
    if q1 * q2 <= two {
      SubsetSize(q1 * q2, two);
      assert false;
    }
    var n :| n in q1 * q2 && n !in two;
  }

  /** Agreement, in general: as long as fewer members are faulty than two quorums share, in every run of
      any number of boxes, any two boxes that at any two times hold a MAJORITY for the same point hold the
      same majority fact hash. */
  lemma AgreementBelowOverlap(w: Setting, ss: seq<Net>, es: seq<Event>, i: nat, j: nat, a: nat, b: nat, p: Point, r1: Record, r2: Record)
    requires w.Valid() && |w.FaultyMembers()| < 2 * w.Quorum().threshold - |w.suffrages|
    requires NetRun(w, ss, es) && i < |ss| && j < |ss|
    requires Holds(ss[i], a, p, r1) && r1.voteproof.result == Majority
    requires Holds(ss[j], b, p, r2) && r2.voteproof.result == Majority
    ensures SameMajority(r1, r2)
  {
    RecordInRun(w, ss, es, i, a, p, r1);
    RecordInRun(w, ss, es, j, b, p, r2);
    HeardAgree(w, ss[|es|].cast, r1, r2);
  }

  ghost predicate SameMajority(r1: Record, r2: Record) {
    && r1.voteproof.majority.Some? && r2.voteproof.majority.Some?
    && r1.voteproof.majority.value.hash == r2.voteproof.majority.value.hash
  }

  /** Agreement with as many faulty nodes as NumberOfFaultyNodes allows, whenever a quorum is more than
      two thirds of the nodes. */
  lemma Agreement(w: Setting, ss: seq<Net>, es: seq<Event>, i: nat, j: nat, a: nat, b: nat, p: Point, r1: Record, r2: Record)
    requires w.Valid() && 3 * w.Quorum().threshold > 2 * |w.suffrages|
    requires |w.FaultyMembers()| <= NumberOfFaultyNodes(|w.suffrages|, w.ratio)
    requires NetRun(w, ss, es) && i < |ss| && j < |ss|
    requires Holds(ss[i], a, p, r1) && r1.voteproof.result == Majority
    requires Holds(ss[j], b, p, r2) && r2.voteproof.result == Majority
    ensures SameMajority(r1, r2)
  {
    QuorumOverlap(|w.suffrages|, w.ratio);
    AgreementBelowOverlap(w, ss, es, i, j, a, b, p, r1, r2);
  }

  /** In particular for every suffrage and every ratio above two thirds, as from 67 to 100. */
  lemma AgreementByRatio(w: Setting, ss: seq<Net>, es: seq<Event>, i: nat, j: nat, a: nat, b: nat, p: Point, r1: Record, r2: Record)
    requires w.Valid() && 3.0 * w.ratio > 200.0
    requires |w.FaultyMembers()| <= NumberOfFaultyNodes(|w.suffrages|, w.ratio)
    requires NetRun(w, ss, es) && i < |ss| && j < |ss|
    requires Holds(ss[i], a, p, r1) && r1.voteproof.result == Majority
    requires Holds(ss[j], b, p, r2) && r2.voteproof.result == Majority
    ensures SameMajority(r1, r2)
  {
    AboveTwoThirds(|w.suffrages|, w.ratio);
    Agreement(w, ss, es, i, j, a, b, p, r1, r2);
  }

  lemma HeardAgree(w: Setting, cast: map<(Address, Point), Hash>, r1: Record, r2: Record)
    requires w.Valid() && |w.FaultyMembers()| < 2 * w.Quorum().threshold - |w.suffrages|
    requires RecordHolds(w, cast, r1) && RecordHolds(w, cast, r2) && r1.voteproof.point == r2.voteproof.point
    requires r1.voteproof.result == Majority && r2.voteproof.result == Majority
    ensures SameMajority(r1, r2)
  {
    SettingQuorate(w);
    forall n | n in r1.votes && n in r2.votes && n !in w.FaultyMembers() ensures r1.votes[n] == r2.votes[n] {
      assert n in w.Members();
    }
    OneMajority(r1, r2, w.Members(), w.FaultyMembers());
  }

  /** Progress: as long as the members that are not faulty make a quorum and the faulty ones do not, in
      every run of any number of boxes in which the former cast only `h` at a point, no box ever draws
      there or finishes otherwise, and every box that has heard them all holds MAJORITY on `h`, whatever
      the faulty nodes sent and in whatever order ballots came. */
  lemma ProgressDespiteFaults(w: Setting, ss: seq<Net>, es: seq<Event>, i: nat, a: nat, p: Point, r: Record, h: Hash)
    requires w.Valid() && |w.FaultyMembers()| < w.Quorum().threshold <= |w.suffrages| - |w.FaultyMembers()|
    requires NetRun(w, ss, es) && i < |ss| && Holds(ss[i], a, p, r) && OnlyCast(ss[|es|], p, h)
    ensures Prevails(w, r, h)
  {
    RecordInRun(w, ss, es, i, a, p, r);
    SettingQuorate(w);
    var agreeing := w.Members() - w.faulty;
    assert |w.Members()| == |agreeing| + |w.FaultyMembers()|;
    assert w.Members() - agreeing == w.FaultyMembers();
    AgreeingPrevail(r, w.Members(), agreeing, h);
  }

  /** No node has cast anything but `h` at the point. */
  ghost predicate OnlyCast(s: Net, p: Point, h: Hash) {
    forall n :: (n, p) in s.cast ==> s.cast[(n, p)] == h
  }

  /** A record has not drawn and finished with nothing but `h`; with all that are not faulty heard, it has
      finished. */
  ghost predicate Prevails(w: Setting, r: Record, h: Hash) {
    && r.voteproof.result != Draw
    && (r.voteproof.result == Majority ==> r.voteproof.majority.Some? && r.voteproof.majority.value.hash == h)
    && (w.Members() - w.faulty <= r.votes.Keys ==> r.voteproof.result == Majority)
  }

  /** In particular with as many faulty nodes as NumberOfFaultyNodes allows, whenever twice the threshold
      exceeds the total, as for every ratio above two thirds. */
  lemma ProgressByRatio(w: Setting, ss: seq<Net>, es: seq<Event>, i: nat, a: nat, p: Point, r: Record, h: Hash)
    requires w.Valid() && (AboveHalf(w.Quorum()) || 3.0 * w.ratio > 200.0)
    requires |w.FaultyMembers()| <= NumberOfFaultyNodes(|w.suffrages|, w.ratio)
    requires NetRun(w, ss, es) && i < |ss| && Holds(ss[i], a, p, r) && OnlyCast(ss[|es|], p, h)
    ensures Prevails(w, r, h)
  {
    QuorumComplement(|w.suffrages|, w.ratio);
    if 3.0 * w.ratio > 200.0 {
      AboveTwoThirds(|w.suffrages|, w.ratio);
    }
    ProgressDespiteFaults(w, ss, es, i, a, p, r, h);
  }

  /** A majority anywhere leaves a completion for every record whose common voters agree with it. */
  lemma NoDraw(r1: Record, r2: Record, members: set<Address>)
    requires Consistent(r1) && Settled(r1) && r1.voteproof.result == Majority && r1.votes.Keys <= members
    requires Consistent(r2) && Settled(r2) && Quorate(r2, members)
    requires r1.threshold == r2.threshold
    requires forall n :: n in r1.votes && n in r2.votes ==> r1.votes[n] == r2.votes[n]
    ensures r2.voteproof.result != Draw
  {
    var h := r1.voteproof.majority.value.hash;
    MajoritySupport(r1);
    AgreeingPrevail(r2, members, Supporters(r1.votes, h), h);
  }

  /** A quorum of one never draws: the first vote counted is a majority. */
  lemma QuorumOfOneNeverDraws(r: Record, members: set<Address>)
    requires Consistent(r) && Settled(r) && Quorate(r, members) && r.threshold.threshold == 1
    ensures r.voteproof.result != Draw
  {
    TallyFits(r, members);
    CompletionByOne(r.threshold.total, 1, r.tally);
    if r.tally != [] {
      assert r.threshold.total - |r.tally| + CountOf(r.tally, r.tally[0]) >= 1;
    }
  }

  /** Exclusion, for every valid ratio: if no member is faulty, or a quorum is a single node, in every run
      no box draws at a point where any box, at any time, holds a MAJORITY, whatever subset and order of
      ballots each saw. */
  lemma DrawExcludesMajority(w: Setting, ss: seq<Net>, es: seq<Event>, i: nat, j: nat, a: nat, b: nat, p: Point, r1: Record, r2: Record)
    requires w.Valid() && (w.FaultyMembers() == {} || w.Quorum().threshold == 1)
    requires NetRun(w, ss, es) && i < |ss| && j < |ss|
    requires Holds(ss[i], a, p, r1) && r1.voteproof.result == Majority
    requires Holds(ss[j], b, p, r2)
    ensures r2.voteproof.result != Draw
  {
    RecordInRun(w, ss, es, i, a, p, r1);
    RecordInRun(w, ss, es, j, b, p, r2);
    HeardExclude(w, ss[|es|].cast, r1, r2);
  }

  lemma HeardExclude(w: Setting, cast: map<(Address, Point), Hash>, r1: Record, r2: Record)
    requires w.Valid() && (w.FaultyMembers() == {} || w.Quorum().threshold == 1)
    requires RecordHolds(w, cast, r1) && RecordHolds(w, cast, r2) && r1.voteproof.point == r2.voteproof.point
    requires r1.voteproof.result == Majority
    ensures r2.voteproof.result != Draw
  {
    if w.Quorum().threshold == 1 {
      QuorumOfOneNeverDraws(r2, w.Members());
    } else {
      forall n | n in r1.votes && n in r2.votes ensures r1.votes[n] == r2.votes[n] {
        assert n in w.Members() && n !in w.FaultyMembers();
      }
      NoDraw(r1, r2, w.Members());
    }
  }
}
