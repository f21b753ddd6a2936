/** INIT ballots: how they are built (states/basic/ballot.go) and what their voteproofs must be
    (base/ballot/init.go). Heights and rounds wrap like int64 and uint64. */
module InitBallots {
  import opened Base
  import opened VoteCount

  datatype Fact =
    | InitFact(height: Int64, round: Uint, previousBlock: Hash)
    | AcceptFact(height: Int64, round: Uint, proposal: Hash, newBlock: Hash)
    | OtherFact

  /** What the rules read of a voteproof. */
  datatype Proof = Proof(height: Int64, round: Uint, stage: Uint8, result: VoteResult, majority: Option<Fact>)

  datatype InitBallot = InitBallot(height: Int64, round: Uint, previousBlock: Hash, base: Proof, accept: Option<Proof>)

  /** The answers of the database: the manifest hash of a height, and its ACCEPT voteproof. */
  datatype Database = Database(manifest: Int64 -> Result<Option<Hash>>, acceptProof: Int64 -> Result<Option<Proof>>)

  // ---------------------------------------------------------------------------
  // The builders

  /** NewINIT: the fact must be above the pre-genesis height and name a previous block. */
  function NewInit(height: Int64, round: Uint, previousBlock: Hash, base: Proof, accept: Option<Proof>): Result<InitBallot> {
    if height <= PRE_GENESIS_HEIGHT || previousBlock == Hash("") then Err
    else Ok(InitBallot(height, round, previousBlock, base, accept))
  }

  /** NextINITBallotFromACCEPTVoteproof. */
  function FromAccept(db: Database, vp: Proof): (r: Result<InitBallot>) {
    if vp.stage != STAGE_ACCEPT || vp.result == NotYet then Err
    else if vp.majority.Some? && !vp.majority.value.AcceptFact? then Err
    else
      var (height, round, previous) :- NextOf(db, vp);
      var avp :- if vp.result != Majority then db.acceptProof(WrapInt64(vp.height - 1)) else Ok(None);
      NewInit(height, round, previous, vp, avp)
  }

  /** The height, round and previous block after an ACCEPT voteproof. */
  function NextOf(db: Database, vp: Proof): Result<(Int64, Uint, Hash)>
    requires vp.majority.Some? ==> vp.majority.value.AcceptFact?
  {
    if vp.majority.Some? then Ok((WrapInt64(vp.height + 1), 0, vp.majority.value.newBlock))
    else
      var previous :- PreviousHash(db, vp.height);
      Ok((vp.height, Wrap(vp.round + 1), previous))
  }

  /** The manifest hash of the height below; a missing manifest is an error. */
  function PreviousHash(db: Database, height: Int64): Result<Hash> {
    var found :- db.manifest(WrapInt64(height - 1));
    if found.None? then Err else Ok(found.value)
  }

  /** NextINITBallotFromINITVoteproof. */
  function FromInit(db: Database, vp: Proof, accept: Option<Proof>): (r: Result<InitBallot>) {
    if vp.stage != STAGE_INIT || vp.result == NotYet then Err
    else
      var avp :- if accept.None? then db.acceptProof(WrapInt64(vp.height - 1)) else Ok(accept);
      var previous :- PreviousHash(db, vp.height);
      NewInit(vp.height, Wrap(vp.round + 1), previous, vp, avp)
  }

  // ---------------------------------------------------------------------------
  // The rules

  predicate ValidAcceptBase(b: InitBallot) {
    if b.base.result == Majority then
      b.accept.None? && b.height == WrapInt64(b.base.height + 1) && b.round == 0
    else
      b.accept.Some? && b.height == b.base.height && b.round == Wrap(b.base.round + 1)
  }

  predicate ValidInitBase(b: InitBallot) {
    b.accept.Some? && b.height == b.base.height && b.round == Wrap(b.base.round + 1)
  }

  /** isValidBaseVoteproof: only INIT and ACCEPT bases have rules. */
  predicate ValidBase(b: InitBallot) {
    if b.base.stage == STAGE_ACCEPT then ValidAcceptBase(b)
    else if b.base.stage == STAGE_INIT then ValidInitBase(b)
    else true
  }

  /** isValidACCEPTVoteproof. */
  predicate ValidAccept(b: InitBallot) {
    b.accept.Some? ==>
      && b.accept.value.stage == STAGE_ACCEPT
      && b.accept.value.result == Majority
      && b.accept.value.height == WrapInt64(b.height - 1)
  }

  predicate Accepted(b: InitBallot) {
    ValidBase(b) && ValidAccept(b)
  }

  // ---------------------------------------------------------------------------
  // Builders against rules

  /** A finished voteproof that passed its own validation names a majority exactly if it has one. */
  predicate WellFormed(vp: Proof) {
    vp.result != NotYet && (vp.majority.Some? <==> vp.result == Majority)
  }

  /** The ACCEPT voteproof of the height below, agreed. */
  predicate PreviousAccept(p: Option<Proof>, height: Int64) {
    p.Some? && p.value.stage == STAGE_ACCEPT && p.value.result == Majority && p.value.height == WrapInt64(height - 1)
  }

  /** From an ACCEPT voteproof: an agreed one always yields an accepted ballot for the next height,
      a drawn one yields an accepted ballot exactly if the database has the agreed ACCEPT voteproof of
      the height below. */
  lemma AcceptBuilderMeetsRules(db: Database, vp: Proof)
    requires WellFormed(vp) && FromAccept(db, vp).Ok?
    ensures var b := FromAccept(db, vp).value;
            && b.base == vp
            && (Accepted(b) <==>
                  vp.result == Majority ||
                  PreviousAccept(db.acceptProof(WrapInt64(vp.height - 1)).value, vp.height))
  {
  }

  /** From an INIT voteproof: the ballot is accepted exactly if the ACCEPT voteproof that was passed, or
      else the one in the database, is the agreed one of the height below. */
  lemma InitBuilderMeetsRules(db: Database, vp: Proof, accept: Option<Proof>)
    requires FromInit(db, vp, accept).Ok?
    ensures var b := FromInit(db, vp, accept).value;
            && b.base == vp
            && (Accepted(b) <==>
                  PreviousAccept(if accept.Some? then accept else db.acceptProof(WrapInt64(vp.height - 1)).value, vp.height))
  {
  }

  // ---------------------------------------------------------------------------
  // Building and accepting

  /** The database knows the block of a height. */
  predicate Stores(db: Database, height: Int64, block: Hash) {
    db.manifest(height) == Ok(Some(block))
  }

  /** The database can answer for the height below: its block and its agreed ACCEPT voteproof are stored. */
  predicate KnowsBelow(db: Database, height: Int64) {
    && db.manifest(WrapInt64(height - 1)).Ok? && db.manifest(WrapInt64(height - 1)).value.Some?
    && db.manifest(WrapInt64(height - 1)).value.value != Hash("")
    && db.acceptProof(WrapInt64(height - 1)).Ok?
    && PreviousAccept(db.acceptProof(WrapInt64(height - 1)).value, height)
  }

  /** The ballot is what it should be: it stands right after its base voteproof, it passes the rules, and its
      fact names a block above pre-genesis. */
  predicate Proper(b: InitBallot, vp: Proof) {
    b.base == vp && Accepted(b) && b.height >= 0 && b.previousBlock != Hash("")
  }

  /** From an agreed ACCEPT voteproof of a height below the last the builder always succeeds, whatever the
      database knows: the ballot is proper, for round 0 of the next height, on the agreed block. */
  lemma BuiltAfterAgreement(db: Database, vp: Proof)
    requires vp.stage == STAGE_ACCEPT && vp.result == Majority && -1 <= vp.height < INT64_LIMIT - 1
    requires vp.majority.Some? && vp.majority.value.AcceptFact? && vp.majority.value.newBlock != Hash("")
    ensures FromAccept(db, vp).Ok?
    ensures var b := FromAccept(db, vp).value;
            Proper(b, vp) && PlaceOf(b) == Place(vp.height + 1, 0) && b.previousBlock == vp.majority.value.newBlock
  {
  }

  /** From a drawn ACCEPT voteproof, or any finished INIT voteproof, the builder succeeds whenever the database
      can answer for the height below: the ballot is proper, for the next round, on the block below. */
  lemma BuiltForNextRound(db: Database, vp: Proof, accept: Option<Proof>)
    requires vp.height >= 0 && KnowsBelow(db, vp.height) && vp.result != NotYet
    requires accept.Some? ==> PreviousAccept(accept, vp.height)
    ensures vp.stage == STAGE_ACCEPT && vp.result == Draw && vp.majority.None? ==>
              FromAccept(db, vp).Ok? && ForNextRound(db, FromAccept(db, vp).value, vp)
    ensures vp.stage == STAGE_INIT ==>
              FromInit(db, vp, accept).Ok? && ForNextRound(db, FromInit(db, vp, accept).value, vp)
  {
  }

  predicate ForNextRound(db: Database, b: InitBallot, vp: Proof) {
    Proper(b, vp) && PlaceOf(b) == Place(vp.height, Wrap(vp.round + 1)) && Stores(db, WrapInt64(vp.height - 1), b.previousBlock)
  }

  /** Neither builder takes a voteproof of another stage or one that is not finished, and what they build names a
      block and is above pre-genesis. */
  lemma BuiltFromFinished(db: Database, vp: Proof, accept: Option<Proof>)
    ensures FromAccept(db, vp).Ok? ==> vp.stage == STAGE_ACCEPT && (vp.result == Majority || vp.result == Draw)
    ensures FromInit(db, vp, accept).Ok? ==> vp.stage == STAGE_INIT && (vp.result == Majority || vp.result == Draw)
    ensures forall b :: FromAccept(db, vp) == Ok(b) || FromInit(db, vp, accept) == Ok(b) ==> b.height >= 0 && b.previousBlock != Hash("")
  {
  }

  /** The builders build on the block below: if the database stores the block that an agreed voteproof names,
      every ballot from either builder names the block stored right below it. */
  lemma StandsOnBlockBelow(db: Database, vp: Proof, accept: Option<Proof>, b: InitBallot)
    requires FromAccept(db, vp) == Ok(b) || FromInit(db, vp, accept) == Ok(b)
    requires vp.stage == STAGE_ACCEPT && vp.majority.Some? && vp.majority.value.AcceptFact? ==>
               Stores(db, vp.height, vp.majority.value.newBlock)
    ensures Stores(db, WrapInt64(b.height - 1), b.previousBlock)
  {
  }

  /** Hence all ballots that are built for one height over one database name the same previous block. */
  lemma OneBlockPerHeight(db: Database, vp: Proof, accept: Option<Proof>, b: InitBallot, vp': Proof, accept': Option<Proof>, b': InitBallot)
    requires FromAccept(db, vp) == Ok(b) || FromInit(db, vp, accept) == Ok(b)
    requires FromAccept(db, vp') == Ok(b') || FromInit(db, vp', accept') == Ok(b')
    requires forall p :: p in {vp, vp'} && p.stage == STAGE_ACCEPT && p.majority.Some? && p.majority.value.AcceptFact? ==>
               Stores(db, p.height, p.majority.value.newBlock)
    requires b.height == b'.height
    ensures b.previousBlock == b'.previousBlock
  {
    assert vp in {vp, vp'} && vp' in {vp, vp'};
    StandsOnBlockBelow(db, vp, accept, b);
    StandsOnBlockBelow(db, vp', accept', b');
  }

  /** The rules leave no choice: over an INIT or ACCEPT base exactly one place is accepted, and whether an ACCEPT
      voteproof comes along; that voteproof is the agreed one of the height below. */
  lemma RulesLeaveNoChoice(b: InitBallot)
    requires b.base.stage == STAGE_INIT || b.base.stage == STAGE_ACCEPT
    ensures Accepted(b) <==>
              if b.base.stage == STAGE_ACCEPT && b.base.result == Majority then
                PlaceOf(b) == Place(WrapInt64(b.base.height + 1), 0) && b.accept == None
              else
                PlaceOf(b) == Place(b.base.height, Wrap(b.base.round + 1)) && PreviousAccept(b.accept, b.base.height)
  {
  }

  // ---------------------------------------------------------------------------
  // Progress

  /** A place in the chain of rounds; of two, the one above has the greater height, or the greater round. */
  datatype Place = Place(height: Int64, round: Uint) {
    predicate Above(that: Place) {
      height > that.height || (height == that.height && round > that.round)
    }
  }

  function PlaceOf(b: InitBallot): Place {
    Place(b.height, b.round)
  }

  function BaseOf(b: InitBallot): Place {
    Place(b.base.height, b.base.round)
  }

  /** The base asks for the next round of its height, rather than for the next height. */
  predicate AsksNextRound(vp: Proof) {
    vp.stage == STAGE_INIT || vp.result != Majority
  }

  /** Every ballot with a valid fact that passes the rules over an INIT or ACCEPT base is strictly above
      its base, except exactly when the base is at the last round and asks for the next one: then the
      round wraps to 0 and the ballot is below. */
  lemma AcceptedMakesProgress(b: InitBallot)
    requires Accepted(b) && b.height > PRE_GENESIS_HEIGHT
    requires b.base.stage == STAGE_INIT || b.base.stage == STAGE_ACCEPT
    ensures PlaceOf(b).Above(BaseOf(b)) <==> !OutOfRounds(b)
  {
  }

  /** The base is at the last round and asks for the next one. */
  predicate OutOfRounds(b: InitBallot) {
    AsksNextRound(b.base) && b.base.round == UINT_MODULUS - 1
  }

  /** The exception is real: a ballot at round 0 over an INIT base at the last round is accepted. */
  lemma RoundWraps() returns (b: InitBallot)
    ensures Accepted(b) && b.base.stage == STAGE_INIT && b.height == b.base.height && b.round < b.base.round
  {
    var last: Uint := UINT_MODULUS - 1;
    var prev := Proof(0, 0, STAGE_ACCEPT, Majority, None);
    var base := Proof(1, last, STAGE_INIT, Draw, None);
    b := InitBallot(1, 0, Hash("previous"), base, Some(prev));
    assert WrapInt64(b.height - 1) == 0;
  }

  // ---------------------------------------------------------------------------
  // Successions of ballots

  /** Ballots that pass the rules, each over a voteproof of the point that the one before it opened. */
  ghost predicate Succession(bs: seq<InitBallot>) {
    && (forall i :: 0 <= i < |bs| ==> OverProof(bs[i]))
    && (forall i :: 0 < i < |bs| ==> BaseOf(bs[i]) == PlaceOf(bs[i - 1]))
  }

  ghost predicate OverProof(b: InitBallot) {
    Accepted(b) && b.height > PRE_GENESIS_HEIGHT && (b.base.stage == STAGE_INIT || b.base.stage == STAGE_ACCEPT)
  }

  /** Each ballot is above all before it. */
  ghost predicate Climbs(bs: seq<InitBallot>) {
    forall i, j :: 0 <= i < j < |bs| ==> PlaceOf(bs[j]).Above(PlaceOf(bs[i]))
  }

  lemma {:induction false} ClimbsTo(bs: seq<InitBallot>, i: nat, j: nat)
    requires Succession(bs) && i < j < |bs| && forall k :: 0 < k < |bs| ==> !OutOfRounds(bs[k])
    ensures PlaceOf(bs[j]).Above(PlaceOf(bs[i]))
    decreases j
  {
    assert OverProof(bs[j]);
    AcceptedMakesProgress(bs[j]);
    if i < j - 1 {
      ClimbsTo(bs, i, j - 1);
    }
  }

  /** A succession of accepted ballots climbs, so that no place is opened twice, exactly if no base after the
      first is out of rounds. */
  lemma SuccessionClimbs(bs: seq<InitBallot>)
    requires Succession(bs)
    ensures Climbs(bs) <==> forall k :: 0 < k < |bs| ==> !OutOfRounds(bs[k])
  {
    if forall k :: 0 < k < |bs| ==> !OutOfRounds(bs[k]) {
      forall i, j | 0 <= i < j < |bs| ensures PlaceOf(bs[j]).Above(PlaceOf(bs[i])) {
        ClimbsTo(bs, i, j);
      }
    } else {
      var k :| 0 < k < |bs| && OutOfRounds(bs[k]);
      assert OverProof(bs[k]);
      AcceptedMakesProgress(bs[k]);
      assert !PlaceOf(bs[k]).Above(PlaceOf(bs[k - 1]));
    }
  }
}
