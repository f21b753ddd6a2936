/** The box that routes ballots to the record of their point: isaac/ballotbox.go. */
module Ballotboxes {
  import opened Base
  import opened Quorum
  import opened VoteCount
  import opened Voteproofs
  import opened Records
  import opened Keys

  /** Who may vote and what a quorum is. */
  datatype Config = Config(suffrages: seq<Address>, threshold: Threshold)

  /** A ballotbox as a value: its records by key, and the latest ballot. */
  datatype Box = Box(records: map<string, Record>, latest: Option<Ballot>)

  const EMPTY_BOX := Box(map[], None)

  /** canVote. */
  predicate Admitted(cfg: Config, b: Ballot) {
    CanVote(b.fact.point.stage) && b.Node() in cfg.suffrages
  }

  /** The lexicographic order of points. */
  predicate NotAfter(p: Point, q: Point) {
    || p.height < q.height
    || (p.height == q.height && p.round < q.round)
    || (p.height == q.height && p.round == q.round && p.stage <= q.stage)
  }

  /** It is a total order in which a point of a greater height, else of a greater round, else of a greater stage, is
      the greater one. */
  lemma PointsInOrder(p: Point, q: Point, r: Point)
    ensures NotAfter(p, q) || NotAfter(q, p)
    ensures NotAfter(p, q) && NotAfter(q, p) ==> p == q
    ensures NotAfter(p, q) && NotAfter(q, r) ==> NotAfter(p, r)
    ensures p.height > q.height ==> !NotAfter(p, q)
    ensures p.height == q.height && p.round > q.round ==> !NotAfter(p, q)
  {
  }

  /** The latest ballot after `b` was loaded: the highest point wins, the earlier ballot on a tie. */
  function Later(latest: Option<Ballot>, b: Ballot): (r: Option<Ballot>)
    ensures r == latest || r == Some(b)
    ensures CanVote(b.fact.point.stage) ==> r.Some? && NotAfter(b.fact.point, r.value.fact.point)
    ensures latest.Some? ==> r.Some? && NotAfter(latest.value.fact.point, r.value.fact.point)
    ensures r != latest && latest.Some? ==> latest.value.fact.point != b.fact.point
  {
    if latest.None? then Some(b) else
    var p, l := b.fact.point, latest.value.fact.point;
    if p.height > l.height then Some(b)
    else if p.height == l.height && p.round > l.round then Some(b)
    else if p.height == l.height && p.round == l.round && CanVote(p.stage) then
      if p.stage > l.stage then Some(b) else latest
    else latest
  }

  /** The record a ballot meets: the stored one, or a new one for its point. */
  function RecordFor(cfg: Config, records: map<string, Record>, p: Point): Record {
    var key := VrsKey(p);
    if key in records then records[key] else NewRecord(p, cfg.suffrages, cfg.threshold)
  }

  /** One call of Vote takes `box` to `box'` and returns `out`. */
  ghost predicate BoxVote(cfg: Config, box: Box, b: Ballot, box': Box, out: Result<Voteproof>) {
    if !Admitted(cfg, b) then
      box' == box && out.Err?
    else
      var key := VrsKey(b.fact.point);
      && box'.latest == Later(box.latest, b)
      && key in box'.records
      && VoteStep(RecordFor(cfg, box.records, b.fact.point), b, box'.records[key])
      && box'.records == box.records[key := box'.records[key]]
      && out == Ok(box'.records[key].voteproof)
  }

  /** The records above a height. */
  ghost function Above(records: map<string, Record>, height: Int64): map<string, Record> {
    map k | k in records && records[k].voteproof.point.height > height :: records[k]
  }

  /** Every record stands under the key of its point and holds ballots for that point only. */
  ghost predicate Keyed(records: map<string, Record>) {
    forall k :: k in records ==> OfPoint(k, records[k])
  }

  ghost predicate OfPoint(k: string, r: Record) {
    && k == VrsKey(r.voteproof.point)
    && forall n :: n in r.ballots ==> r.ballots[n].fact.point == r.voteproof.point
  }

  /** What is left above a height: exactly the records of the points with a greater height, unchanged. */
  lemma AboveExactly(records: map<string, Record>, height: Int64, p: Point)
    requires Keyed(records)
    ensures VrsKey(p) in Above(records, height) <==> VrsKey(p) in records && p.height > height
    ensures VrsKey(p) in Above(records, height) ==> Above(records, height)[VrsKey(p)] == records[VrsKey(p)]
  {
    if VrsKey(p) in records {
      assert OfPoint(VrsKey(p), records[VrsKey(p)]);
      KeyInjective(p, records[VrsKey(p)].voteproof.point);
    }
  }

  /** Only INIT and ACCEPT ballots of members are let in; any other leaves the box as it is. */
  lemma OthersChangeNothing(cfg: Config, box: Box, b: Ballot, box': Box, out: Result<Voteproof>)
    requires BoxVote(cfg, box, b, box', out)
    ensures out.Err? <==> !((b.fact.point.stage == STAGE_INIT || b.fact.point.stage == STAGE_ACCEPT) && b.Node() in cfg.suffrages)
    ensures out.Err? ==> box' == box
  {
  }

  /** In any run each ballot reaches only its own point's record. */
  lemma VoteKeepsKeyed(cfg: Config, box: Box, b: Ballot, box': Box, out: Result<Voteproof>)
    requires Keyed(box.records) && BoxVote(cfg, box, b, box', out)
    ensures Keyed(box'.records)
    ensures forall p :: p != b.fact.point && VrsKey(p) in box'.records ==>
              VrsKey(p) in box.records && box'.records[VrsKey(p)] == box.records[VrsKey(p)]
  {
    if Admitted(cfg, b) {
      var p := b.fact.point;
      var key := VrsKey(p);
      var r := RecordFor(cfg, box.records, p);
      assert OfPoint(key, r);
      KeyInjective(p, r.voteproof.point);
      VoteKeepsPoint(key, r, b, box'.records[key]);
      forall q | q != p ensures VrsKey(q) != key {
        if VrsKey(q) == key {
          KeyInjective(p, q);
        }
      }
    }
  }

  lemma VoteKeepsPoint(key: string, r: Record, b: Ballot, r': Record)
    requires VoteStep(r, b, r') && b.fact.point == r.voteproof.point && OfPoint(key, r)
    ensures OfPoint(key, r')
  {
    StepKeepsIdentity(r, b, r');
    StepKeepsBallots(r, b, r');
  }

  /** The scan of Clean: the keys whose height is not above `height`, unless some key cannot be
      scanned. */
  method KeysUpTo(keys: set<string>, height: Int64) returns (ok: bool, low: set<string>)
    ensures ok <==> forall k :: k in keys ==> ScanKey(k).Some?
    ensures ok ==> low == set k | k in keys && ScanKey(k).Some? && ScanKey(k).value.height <= height
  {
    low := {};
    var rest := keys;
    while rest != {}
      invariant rest <= keys
      invariant forall k :: k in keys && k !in rest ==> ScanKey(k).Some?
      invariant low == set k | k in keys - rest && ScanKey(k).Some? && ScanKey(k).value.height <= height
      decreases |rest|
    {
      var k :| k in rest;
      var scanned := ScanKey(k);
      if scanned.None? {
        return false, {};
      }
      if scanned.value.height <= height {
        low := low + {k};
      }
      rest := rest - {k};
    }
    assert keys - rest == keys;
    return true, low;
  }

  lemma ScannedIsAbove(records: map<string, Record>, ok: bool, low: set<string>, height: Int64)
    requires Keyed(records)
    requires ok <==> forall k :: k in records.Keys ==> ScanKey(k).Some?
    requires ok ==> low == set k | k in records.Keys && ScanKey(k).Some? && ScanKey(k).value.height <= height
    ensures ok && records - low == Above(records, height)
  {
    forall k | k in records ensures ScanKey(k) == Some(records[k].voteproof.point) {
      assert OfPoint(k, records[k]);
      KeyRoundTrip(records[k].voteproof.point);
    }
  }

  /** Loading the record of a ballot and voting on it is one vote on the box. */
  lemma LoadThenVote(cfg: Config, box: Box, b: Ballot, loaded: map<string, Record>, box': Box)
    requires Admitted(cfg, b) && VrsKey(b.fact.point) in box'.records
    requires loaded == box.records[VrsKey(b.fact.point) := RecordFor(cfg, box.records, b.fact.point)]
    requires VoteStep(loaded[VrsKey(b.fact.point)], b, box'.records[VrsKey(b.fact.point)])
    requires box'.records == loaded[VrsKey(b.fact.point) := box'.records[VrsKey(b.fact.point)]]
    requires box'.latest == Later(box.latest, b)
    ensures BoxVote(cfg, box, b, box', Ok(box'.records[VrsKey(b.fact.point)].voteproof))
  {
    SetTwice(box.records, VrsKey(b.fact.point), loaded[VrsKey(b.fact.point)], box'.records[VrsKey(b.fact.point)]);
  }

  lemma SetTwice(m: map<string, Record>, k: string, x: Record, y: Record)
    ensures m[k := x][k := y] == m[k := y]
  {
  }

  class Ballotbox {
    const cfg: Config
    var vrs: map<string, VoteRecords>
    var latestBallot: Option<Ballot>

    /** Different keys have different records. */
    ghost predicate Valid()
      reads this`vrs
    {
      forall k, l :: k in vrs && l in vrs && k != l ==> vrs[k] != vrs[l]
    }

    ghost function Records(): (m: map<string, Record>)
      reads this`vrs, vrs.Values
      ensures m.Keys == vrs.Keys
    {
      map k | k in vrs :: vrs[k].State()
    }

    ghost function State(): Box
      reads this, vrs.Values
    {
      Box(Records(), latestBallot)
    }

    constructor (cfg: Config)
      ensures Valid() && State() == EMPTY_BOX && this.cfg == cfg
    {
      this.cfg := cfg;
      vrs := map[];
      latestBallot := None;
    }

    /** A new record under a key, unless it has one. */
    method EnsureRecord(key: string, p: Point)
      requires Valid()
      modifies this`vrs
      ensures Valid() && fresh(vrs.Values - old(vrs.Values))
      ensures key in vrs
      ensures Records() == old(Records())[key := if key in old(vrs) then old(Records())[key] else NewRecord(p, cfg.suffrages, cfg.threshold)]
    {
      if key !in vrs {
        var r := new VoteRecords(p, cfg.suffrages, cfg.threshold);
        assert forall k :: k in vrs ==> vrs[k] != r;
        vrs := vrs[key := r];
      }
    }

    /** loadVoteRecords, with creation. */
    method LoadVoteRecords(b: Ballot)
      requires Valid()
      modifies this
      ensures Valid() && latestBallot == Later(old(latestBallot), b)
      ensures fresh(vrs.Values - old(vrs.Values))
      ensures VrsKey(b.fact.point) in vrs
      ensures Records() == old(Records())[VrsKey(b.fact.point) := RecordFor(cfg, old(Records()), b.fact.point)]
    {
      latestBallot := Later(latestBallot, b);
      EnsureRecord(VrsKey(b.fact.point), b.fact.point);
    }

    method VoteLoaded(key: string, b: Ballot) returns (vp: Voteproof)
      requires Valid() && key in vrs
      modifies vrs[key]
      ensures Valid()
      ensures VoteStep(old(Records())[key], b, Records()[key]) && vp == Records()[key].voteproof
      ensures Records() == old(Records())[key := Records()[key]]
    {
      var r := vrs[key];
      vp := r.Vote(b);
      assert forall k :: k in vrs && k != key ==> vrs[k] != r;
    }

    method Vote(b: Ballot) returns (out: Result<Voteproof>)
      requires Valid()
      modifies this, vrs.Values
      ensures Valid() && fresh(vrs.Values - old(vrs.Values))
      ensures BoxVote(cfg, old(State()), b, State(), out)
    {
      if !CanVote(b.fact.point.stage) || b.Node() !in cfg.suffrages {
        return Err;
      }
      ghost var before := State();
      LoadVoteRecords(b);
      ghost var loaded := Records();
      var vp := VoteLoaded(VrsKey(b.fact.point), b);
      LoadThenVote(cfg, before, b, loaded, State());
      return Ok(vp);
    }

    /** Clean. It scans every key, in whatever order, and fails without a change if one cannot be
        scanned; with records under their own keys none fails, and exactly the records up to the
        height go. */
    method Clean(height: Int64) returns (ok: bool)
      requires Valid()
      modifies this`vrs
      ensures Valid() && vrs.Values <= old(vrs.Values)
      ensures !ok ==> vrs == old(vrs)
      ensures Keyed(old(Records())) ==> ok && Records() == Above(old(Records()), height)
    {
      ghost var before := Records();
      var removeKeys;
      ok, removeKeys := KeysUpTo(vrs.Keys, height);
      if ok {
        vrs := vrs - removeKeys;
        assert Records() == before - removeKeys;
      }
      if Keyed(before) {
        ScannedIsAbove(before, ok, removeKeys, height);
      }
    }

    method Empty()
      modifies this
      ensures Valid() && State() == EMPTY_BOX
    {
      vrs := map[];
      latestBallot := None;
    }
  }
}
