/** The state pool of a block under construction: storage/statepool.go, base/state/state.go,
    base/state/state_v0.go and the states tree of base/prprocessor/operation.go. */
module States {
  import opened Base
  import opened Sorting

  /** A state; hashes of operations are byte strings, and so is the key. */
  datatype State = State(
    hash: Option<Bytes>,
    key: Bytes,
    value: Option<string>,
    height: int,
    previousHeight: int,
    operations: seq<Bytes>)

  function Clear(st: State): State {
    st.(operations := [])
  }

  function SetHeight(st: State, h: int): State {
    if st.height != h then st.(previousHeight := st.height, height := h) else st
  }

  /** StateV0.Merge with receiver `st`: the value of `source` replaces a different one, so that of two
      states merged into an updater the earlier value stays. */
  function Merge(st: State, source: State): State {
    if source.value.None? then st
    else if st.value == source.value then st
    else st.(value := source.value)
  }

  // ---------------------------------------------------------------------------
  // State updaters

  datatype Updater = Updater(state: State, orig: State, height: int, opcache: set<Bytes>, operations: seq<Bytes>)

  predicate ValidOperation(op: Bytes) {
    0 < |op| <= 100
  }

  function NewUpdater(st: State, height: int): Updater {
    Updater(st, st, height, {}, [])
  }

  /** AddOperation; an invalid hash is remembered in the cache before it is refused. */
  function AddOperation(u: Updater, op: Bytes): (Updater, bool) {
    if op in u.opcache then (u, true)
    else
      var cached := u.(opcache := u.opcache + {op});
      if !ValidOperation(op) then (cached, false)
      else (cached.(operations := u.operations + [op]), true)
  }

  function GetState(u: Updater): State {
    SetHeight(u.state, u.height).(operations := u.operations)
  }

  // ---------------------------------------------------------------------------
  // Writes

  /** One state set by one operation. */
  datatype Write = Write(fact: Bytes, state: State)

  type Updates = map<Bytes, Updater>

  /** The updater that a state meets in the pool: the stored one or a new one. */
  function UpdaterFor(updated: Updates, next: int, st: State): Updater {
    if st.key in updated then updated[st.key] else NewUpdater(Clear(st), next)
  }

  /** The pool after a write of a valid operation. */
  function WriteOne(updated: Updates, next: int, w: Write): Updates {
    var u := UpdaterFor(updated, next, w.state);
    updated[w.state.key := AddOperation(u.(state := Merge(w.state, u.state)), w.fact).0]
  }

  function WriteAll(updated: Updates, next: int, ws: seq<Write>): Updates {
    if ws == [] then updated
    else WriteOne(WriteAll(updated, next, ws[..|ws| - 1]), next, ws[|ws| - 1])
  }

  /** The writes of one Set call. */
  function WritesOf(fact: Bytes, states: seq<State>): (ws: seq<Write>)
    ensures |ws| == |states| && forall i :: 0 <= i < |ws| ==> ws[i] == Write(fact, states[i])
  {
    seq(|states|, i requires 0 <= i < |states| => Write(fact, states[i]))
  }

  /** The updater of a state after one attempt to write it, and whether the operation was accepted. */
  function Put(updated: Updates, next: int, fact: Bytes, st: State): (Updater, bool) {
    var u := UpdaterFor(updated, next, st);
    AddOperation(u.(state := Merge(st, u.state)), fact)
  }

  /** What Set leaves of the updaters, and whether it succeeds: it writes one state after the other; if an
      operation is refused, the updaters of all states so far go back to their original states. */
  function TrySet(updated: Updates, next: int, fact: Bytes, states: seq<State>): (Updates, bool) {
    if states == [] then (updated, true)
    else
      var (before, ok) := TrySet(updated, next, fact, states[..|states| - 1]);
      if !ok then (before, false)
      else
        var last := states[|states| - 1];
        var (u, added) := Put(before, next, fact, last);
        var after := before[last.key := u];
        if added then (after, true) else (ResetAll(after, states), false)
  }

  function ResetAll(updated: Updates, states: seq<State>): Updates {
    if states == [] then updated
    else
      var before, key := ResetAll(updated, states[..|states| - 1]), states[|states| - 1].key;
      if key in before then before[key := before[key].(state := before[key].orig)] else before
  }

  // ---------------------------------------------------------------------------
  // The pool

  datatype Cached = Cached(state: State, found: bool)

  /** A key is not empty and has no white space. */
  predicate ValidKey(key: Bytes) {
    key != [] && forall b :: b in key ==> b !in {9, 10, 12, 13, 32}
  }

  /** What Get answers, and the cache it leaves, when the storage answers `stored`. */
  function GetFrom(cached: map<Bytes, Cached>, key: Bytes, stored: Result<Option<State>>): (Result<(State, bool)>, map<Bytes, Cached>) {
    if key in cached then (Ok((Clear(cached[key].state), cached[key].found)), cached)
    else if stored.Err? || (stored.value.None? && !ValidKey(key)) then (Err, cached)
    else
      var c := if stored.value.Some? then Cached(Clear(stored.value.value), true)
               else Cached(State(None, key, None, NIL_HEIGHT, NIL_HEIGHT, []), false);
      (Ok((Clear(c.state), c.found)), cached[key := c])
  }

  class Statepool {
    const nextHeight: int
    var cached: map<Bytes, Cached>
    var updated: Updates
    var insertedOps: set<Bytes>

    constructor (nextHeight: int)
      ensures this.nextHeight == nextHeight && cached == map[] && updated == map[] && insertedOps == {}
    {
      this.nextHeight := nextHeight;
      cached, updated, insertedOps := map[], map[], {};
    }

    /** Get, given what the storage answers now. */
    method Get(key: Bytes, stored: Result<Option<State>>) returns (r: Result<(State, bool)>)
      modifies this`cached
      ensures (r, cached) == GetFrom(old(cached), key, stored)
    {
      if key in cached {
        return Ok((Clear(cached[key].state), cached[key].found));
      }
      var found :- stored;
      if found.Some? {
        var st := Clear(found.value);
        cached := cached[key := Cached(st, true)];
        return Ok((Clear(st), true));
      }
      if !ValidKey(key) {
        return Err;
      }
      var st := State(None, key, None, NIL_HEIGHT, NIL_HEIGHT, []);
      cached := cached[key := Cached(st, false)];
      return Ok((Clear(st), false));
    }

    /** Set, also with an invalid operation hash; it never touches what Get returns. */
    method Set(fact: Bytes, states: seq<State>) returns (ok: bool)
      modifies this`updated, this`insertedOps
      ensures (updated, ok) == TrySet(old(updated), nextHeight, fact, states)
      ensures insertedOps == if ok && states != [] then old(insertedOps) + {fact} else old(insertedOps)
    {
      if |states| < 1 {
        return true;
      }
      for i := 0 to |states|
        invariant (updated, true) == TrySet(old(updated), nextHeight, fact, states[..i])
        invariant insertedOps == old(insertedOps)
      {
        assert states[..i + 1][..i] == states[..i];
        var (u, added) := Put(updated, nextHeight, fact, states[i]);
        updated := updated[states[i].key := u];
        if !added {
          ResetStates(states[..i + 1]);
          TrySetStops(old(updated), nextHeight, fact, states, i + 1);
          return false;
        }
      }
      assert states[..|states|] == states;
      insertedOps := insertedOps + {fact};
      return true;
    }

    /** The loop that takes back the states written so far. */
    method ResetStates(states: seq<State>)
      modifies this`updated
      ensures updated == ResetAll(old(updated), states)
    {
      for j := 0 to |states|
        invariant updated == ResetAll(old(updated), states[..j])
      {
        assert states[..j + 1][..j] == states[..j];
        if states[j].key in updated {
          var v := updated[states[j].key];
          updated := updated[states[j].key := v.(state := v.orig)];
        }
      }
      assert states[..|states|] == states;
    }
  }

  /** An error comes from the first state that is refused; the states after it do not matter. */
  lemma {:induction false} TrySetStops(updated: Updates, next: int, fact: Bytes, states: seq<State>, n: nat)
    requires n <= |states| && !TrySet(updated, next, fact, states[..n]).1
    ensures TrySet(updated, next, fact, states) == TrySet(updated, next, fact, states[..n])
    decreases |states|
  {
    if n < |states| {
      var front := states[..|states| - 1];
      assert front[..n] == states[..n];
      TrySetStops(updated, next, fact, front, n);
    } else {
      assert states[..n] == states;
    }
  }

  /** With a valid operation hash, Set succeeds and writes every state. */
  lemma {:induction false} ValidSetWrites(updated: Updates, next: int, fact: Bytes, states: seq<State>)
    requires ValidOperation(fact)
    ensures TrySet(updated, next, fact, states) == (WriteAll(updated, next, WritesOf(fact, states)), true)
    decreases |states|
  {
    if states != [] {
      var front := states[..|states| - 1];
      ValidSetWrites(updated, next, fact, front);
      var ws := WritesOf(fact, states);
      assert ws[..|ws| - 1] == WritesOf(fact, front);
    }
  }

  /** The updater of the key, if there is one, has met the operation. */
  predicate Met(updated: Updates, fact: Bytes, key: Bytes) {
    key in updated && fact in updated[key].opcache
  }

  /** One of the states is of the key. */
  ghost predicate WritesKey(states: seq<State>, key: Bytes) {
    exists i :: 0 <= i < |states| && states[i].key == key
  }

  lemma WritesKeyAppend(states: seq<State>, st: State, key: Bytes)
    ensures WritesKey(states + [st], key) <==> WritesKey(states, key) || st.key == key
  {
    if i :| 0 <= i < |states| && states[i].key == key {
      assert (states + [st])[i].key == key;
    }
    assert (states + [st])[|states|] == st;
  }

  /** An operation that is accepted is met by the updaters of its states, and by those that had met it. */
  ghost predicate MetAlike(before: Updates, after: Updates, fact: Bytes, states: seq<State>) {
    forall key :: Met(after, fact, key) <==> Met(before, fact, key) || WritesKey(states, key)
  }

  /** Some state is of a key whose updater has not met the operation. */
  ghost predicate SomeNew(updated: Updates, fact: Bytes, states: seq<State>) {
    exists i :: 0 <= i < |states| && !Met(updated, fact, states[i].key)
  }

  /** When Set fails, exactly: the operation hash is empty or longer than 100 bytes, and some state is of a key whose
      updater has not met it. So a refused operation passes where it was refused before. */
  lemma {:induction false} SetFailsExactly(updated: Updates, next: int, fact: Bytes, states: seq<State>)
    ensures !TrySet(updated, next, fact, states).1 <==> (|fact| == 0 || |fact| > 100) && SomeNew(updated, fact, states)
    ensures TrySet(updated, next, fact, states).1 ==> MetAlike(updated, TrySet(updated, next, fact, states).0, fact, states)
    decreases |states|
  {
    if states != [] {
      var front, last := states[..|states| - 1], states[|states| - 1];
      assert states == front + [last];
      SetFailsExactly(updated, next, fact, front);
      SomeNewAppend(updated, fact, front, last);
      var (before, ok) := TrySet(updated, next, fact, front);
      if ok {
        PutMeets(updated, before, next, fact, front, last);
      }
    }
  }

  /** A call that sets one state fails at most once: called again it succeeds. */
  lemma RefusedOnce(updated: Updates, next: int, fact: Bytes, st: State)
    ensures TrySet(TrySet(updated, next, fact, [st]).0, next, fact, [st]).1
  {
    var put := updated[st.key := Put(updated, next, fact, st).0];
    var after := TrySet(updated, next, fact, [st]).0;
    assert [st][..0] == [] && TrySet(updated, next, fact, []) == (updated, true);
    assert ResetAll(put, []) == put;
    assert after == put || after == ResetAll(put, [st]);
    assert Met(after, fact, st.key);
    SetFailsExactly(after, next, fact, [st]);
  }

  lemma SomeNewAppend(updated: Updates, fact: Bytes, states: seq<State>, st: State)
    ensures SomeNew(updated, fact, states + [st]) <==> SomeNew(updated, fact, states) || !Met(updated, fact, st.key)
  {
    if i :| 0 <= i < |states| && !Met(updated, fact, states[i].key) {
      assert !Met(updated, fact, (states + [st])[i].key);
    }
    assert (states + [st])[|states|] == st;
  }

  lemma PutMeets(updated: Updates, before: Updates, next: int, fact: Bytes, front: seq<State>, last: State)
    requires MetAlike(updated, before, fact, front)
    ensures MetAlike(updated, before[last.key := Put(before, next, fact, last).0], fact, front + [last])
    ensures Put(before, next, fact, last).1 <==> ValidOperation(fact) || Met(updated, fact, last.key) || WritesKey(front, last.key)
  {
    var after := before[last.key := Put(before, next, fact, last).0];
    forall key ensures Met(after, fact, key) <==> Met(updated, fact, key) || WritesKey(front + [last], key) {
      WritesKeyAppend(front, last, key);
      assert Met(before, fact, key) <==> Met(updated, fact, key) || WritesKey(front, key);
    }
    assert Met(before, fact, last.key) <==> Met(updated, fact, last.key) || WritesKey(front, last.key);
  }

  /** What an updater is at the start of a call: the stored one, or a new one of the first state of its key. */
  function Start(updated: Updates, next: int, fact: Bytes, states: seq<State>, key: Bytes): Option<Updater> {
    if key in updated then Some(updated[key])
    else
      var first := FirstState(WritesOf(fact, states), key);
      if first.Some? then Some(NewUpdater(Clear(first.value), next)) else None
  }

  /** With an invalid operation hash, everything in an updater but its state is as at the start, except that the
      updaters of the states remember the hash. */
  ghost predicate Remembers(before: Updates, after: Updates, next: int, fact: Bytes, states: seq<State>, key: Bytes) {
    var start := Start(before, next, fact, states, key);
    && (key in after <==> start.Some?)
    && (key in after && WritesKey(states, key) ==>
          after[key] == start.value.(state := after[key].state, opcache := start.value.opcache + {fact}))
    && (key in after && !WritesKey(states, key) ==> after[key] == start.value)
  }

  /** And the states are taken back. */
  ghost predicate TakenBack(before: Updates, after: Updates, next: int, fact: Bytes, states: seq<State>) {
    forall key ::
      && Remembers(before, after, next, fact, states, key)
      && (WritesKey(states, key) ==> key in after && after[key].state == after[key].orig)
  }

  /** What a failed Set leaves: the states up to the first one of a key whose updater had not met the operation are
      taken back to the original states of their updaters; the operations and heights of these updaters stay, they
      remember the operation hash, and no other updater changes. */
  lemma {:induction false} FailedSetResets(updated: Updates, next: int, fact: Bytes, states: seq<State>) returns (n: nat)
    requires !TrySet(updated, next, fact, states).1
    ensures 0 < n <= |states| && !SomeNew(updated, fact, states[..n - 1]) && !Met(updated, fact, states[n - 1].key)
    ensures TakenBack(updated, TrySet(updated, next, fact, states).0, next, fact, states[..n])
    decreases |states|
  {
    var front, last := states[..|states| - 1], states[|states| - 1];
    assert states == front + [last] && states[..|states|] == states;
    SetFailsExactly(updated, next, fact, states);
    SetFailsExactly(updated, next, fact, front);
    if TrySet(updated, next, fact, front).1 {
      n := |states|;
      SomeNewAppend(updated, fact, front, last);
      LastTakenBack(updated, next, fact, front, last);
    } else {
      n := FailedSetResets(updated, next, fact, front);
      assert front[..n] == states[..n] && front[..n - 1] == states[..n - 1];
    }
  }

  lemma LastTakenBack(updated: Updates, next: int, fact: Bytes, front: seq<State>, last: State)
    requires !ValidOperation(fact) && TrySet(updated, next, fact, front).1 && !TrySet(updated, next, fact, front + [last]).1
    ensures TakenBack(updated, TrySet(updated, next, fact, front + [last]).0, next, fact, front + [last])
  {
    var states := front + [last];
    assert states[..|states| - 1] == front;
    var before := TrySet(updated, next, fact, front).0;
    var put := before[last.key := Put(before, next, fact, last).0];
    forall key
      ensures Remembers(updated, ResetAll(put, states), next, fact, states, key)
      ensures WritesKey(states, key) ==> key in ResetAll(put, states) && ResetAll(put, states)[key].state == ResetAll(put, states)[key].orig
    {
      AcceptedRemembers(updated, next, fact, front, key);
      PutRemembers(updated, before, next, fact, front, last, key);
      ResetRemembers(updated, put, next, fact, states, key);
    }
  }

  lemma ResetRemembers(updated: Updates, put: Updates, next: int, fact: Bytes, states: seq<State>, key: Bytes)
    requires Remembers(updated, put, next, fact, states, key)
    ensures Remembers(updated, ResetAll(put, states), next, fact, states, key)
    ensures WritesKey(states, key) ==> key in ResetAll(put, states) && ResetAll(put, states)[key].state == ResetAll(put, states)[key].orig
  {
    ResetTakesBack(put, states, key);
    FirstIfWritten(fact, states, key);
  }

  lemma {:induction false} AcceptedRemembers(updated: Updates, next: int, fact: Bytes, states: seq<State>, key: Bytes)
    requires !ValidOperation(fact) && TrySet(updated, next, fact, states).1
    ensures Remembers(updated, TrySet(updated, next, fact, states).0, next, fact, states, key)
    decreases |states|
  {
    if states != [] {
      var front, last := states[..|states| - 1], states[|states| - 1];
      assert states == front + [last];
      AcceptedRemembers(updated, next, fact, front, key);
      PutRemembers(updated, TrySet(updated, next, fact, front).0, next, fact, front, last, key);
    }
  }

  lemma PutRemembers(updated: Updates, before: Updates, next: int, fact: Bytes, front: seq<State>, last: State, key: Bytes)
    requires !ValidOperation(fact) && Remembers(updated, before, next, fact, front, key)
    ensures Remembers(updated, before[last.key := Put(before, next, fact, last).0], next, fact, front + [last], key)
  {
    var states := front + [last];
    WritesKeyAppend(front, last, key);
    var ws := WritesOf(fact, states);
    assert ws[..|ws| - 1] == WritesOf(fact, front);
    FirstIfWritten(fact, front, key);
    var start, start' := Start(updated, next, fact, front, key), Start(updated, next, fact, states, key);
    if last.key == key {
      var u := UpdaterFor(before, next, last);
      assert start'.Some? && (key !in before ==> u == start'.value) && (key in before ==> start' == start);
      assert u.opcache + {fact} == start'.value.opcache + {fact};
    }
  }

  lemma {:induction false} FirstIfWritten(fact: Bytes, states: seq<State>, key: Bytes)
    ensures FirstState(WritesOf(fact, states), key).Some? <==> WritesKey(states, key)
    decreases |states|
  {
    if states != [] {
      var front, last := states[..|states| - 1], states[|states| - 1];
      assert states == front + [last];
      FirstIfWritten(fact, front, key);
      WritesKeyAppend(front, last, key);
      var ws := WritesOf(fact, states);
      assert ws[..|ws| - 1] == WritesOf(fact, front);
    }
  }

  lemma {:induction false} ResetTakesBack(updated: Updates, states: seq<State>, key: Bytes)
    ensures key in ResetAll(updated, states) <==> key in updated
    ensures key in updated ==>
              ResetAll(updated, states)[key] == if WritesKey(states, key) then updated[key].(state := updated[key].orig) else updated[key]
    decreases |states|
  {
    if states != [] {
      var front, last := states[..|states| - 1], states[|states| - 1];
      assert states == front + [last];
      ResetTakesBack(updated, front, key);
      WritesKeyAppend(front, last, key);
    }
  }

  // ---------------------------------------------------------------------------
  // Reading: one snapshot per key

  datatype Call = GetCall(key: Bytes, stored: Result<Option<State>>) | SetCall(fact: Bytes, states: seq<State>)

  /** The cache after a sequence of calls. */
  function CacheAfter(cached: map<Bytes, Cached>, calls: seq<Call>): map<Bytes, Cached> {
    if calls == [] then cached
    else
      var before := CacheAfter(cached, calls[..|calls| - 1]);
      match calls[|calls| - 1]
      case GetCall(key, stored) => GetFrom(before, key, stored).1
      case SetCall(_, _) => before
  }

  /** What the call number `i`, a Get, answers. */
  function AnswerAt(calls: seq<Call>, i: nat): Result<(State, bool)>
    requires i < |calls| && calls[i].GetCall?
  {
    GetFrom(CacheAfter(map[], calls[..i]), calls[i].key, calls[i].stored).0
  }

  lemma {:induction false} CacheKeeps(calls: seq<Call>, i: nat, j: nat, key: Bytes)
    requires i <= j <= |calls| && key in CacheAfter(map[], calls[..i])
    ensures key in CacheAfter(map[], calls[..j])
    ensures CacheAfter(map[], calls[..j])[key] == CacheAfter(map[], calls[..i])[key]
    decreases j
  {
    if i < j {
      CacheKeeps(calls, i, j - 1, key);
      assert calls[..j][..j - 1] == calls[..j - 1];
    }
  }

  /** The first Get of a key answers what storage holds: a stored state as found, without its operations; for a
      key that is not stored an empty state as not found, unless the key is empty or has white space; and an
      error for an error. */
  lemma FirstGetAnswersStorage(calls: seq<Call>, i: nat)
    requires i < |calls| && calls[i].GetCall? && calls[i].key !in CacheAfter(map[], calls[..i])
    ensures var (key, stored, answer) := (calls[i].key, calls[i].stored, AnswerAt(calls, i));
            match stored
            case Err => answer == Err
            case Ok(Some(st)) =>
              answer.Ok? && answer.value.1 && answer.value.0.operations == [] && answer.value.0 == st.(operations := [])
            case Ok(None) =>
              if key == [] || exists b :: b in key && (b == 9 || b == 10 || b == 12 || b == 13 || b == 32) then answer == Err
              else answer.Ok? && !answer.value.1 && answer.value.0.value == None && answer.value.0.key == key
                   && answer.value.0.height == answer.value.0.previousHeight == -2 && answer.value.0.operations == []
  {
  }

  /** However Set calls interleave and whatever the storage says later, every Get of a key answers
      what its first successful Get answered. */
  lemma GetIsFixed(calls: seq<Call>, i: nat, j: nat)
    requires i < j < |calls| && calls[i].GetCall? && calls[j].GetCall? && calls[i].key == calls[j].key
    requires AnswerAt(calls, i).Ok?
    ensures AnswerAt(calls, j) == AnswerAt(calls, i)
  {
    var key := calls[i].key;
    assert calls[..i + 1][..i] == calls[..i];
    CacheKeeps(calls, i + 1, j, key);
  }

  // ---------------------------------------------------------------------------
  // What a pool holds

  /** The operations that wrote a key. */
  ghost function FactsFor(ws: seq<Write>, key: Bytes): set<Bytes> {
    set w | w in ws && w.state.key == key :: w.fact
  }

  ghost function KeysOf(ws: seq<Write>): set<Bytes> {
    set w | w in ws :: w.state.key
  }

  ghost predicate AllValid(ws: seq<Write>) {
    forall w :: w in ws ==> ValidOperation(w.fact)
  }

  /** The first value written to a key, if any. */
  function FirstValue(ws: seq<Write>, key: Bytes): Option<string> {
    if ws == [] then None
    else
      var before, last := FirstValue(ws[..|ws| - 1], key), ws[|ws| - 1];
      if before.Some? || last.state.key != key then before else last.state.value
  }

  /** The height that a state keeps as its previous height at the next one. */
  function Kept(st: State, next: int): int {
    if st.height != next then st.height else st.previousHeight
  }

  /** The kept height of the last write of a key. */
  function LastKept(ws: seq<Write>, key: Bytes, next: int): int {
    if ws == [] then NIL_HEIGHT
    else
      var last := ws[|ws| - 1];
      if last.state.key == key then Kept(last.state, next) else LastKept(ws[..|ws| - 1], key, next)
  }

  /** The first state written to a key. */
  function FirstState(ws: seq<Write>, key: Bytes): Option<State> {
    if ws == [] then None
    else
      var before, last := FirstState(ws[..|ws| - 1], key), ws[|ws| - 1];
      if before.Some? || last.state.key != key then before else Some(last.state)
  }

  /** What a reset goes back to: the first state written to the key, without its operations. */
  lemma {:induction false} OriginIsFirst(ws: seq<Write>, next: int, key: Bytes)
    ensures key in WriteAll(map[], next, ws) <==> FirstState(ws, key).Some?
    ensures key in WriteAll(map[], next, ws) ==>
              WriteAll(map[], next, ws)[key].orig == FirstState(ws, key).value.(operations := [])
    decreases |ws|
  {
    if ws != [] {
      OriginIsFirst(ws[..|ws| - 1], next, key);
    }
  }

  /** What an updater holds: the first value written, the last height kept, and each operation once. */
  ghost predicate Holds(u: Updater, next: int, key: Bytes, value: Option<string>, kept: int, facts: set<Bytes>) {
    && u.state.key == key && u.state.value == value && Kept(u.state, next) == kept
    && u.height == next
    && Distinct(u.operations)
    && Elements(u.operations) == u.opcache == facts
  }

  lemma HoldsAfterWrite(u: Updater, next: int, key: Bytes, value: Option<string>, kept: int, facts: set<Bytes>, w: Write)
    requires Holds(u, next, key, value, kept, facts) && w.state.key == key && ValidOperation(w.fact)
    ensures Holds(AddOperation(u.(state := Merge(w.state, u.state)), w.fact).0, next, key,
                  if value.Some? then value else w.state.value, Kept(w.state, next), facts + {w.fact})
  {
    ElementsAppend(u.operations, w.fact);
    if w.fact in u.opcache {
      assert facts + {w.fact} == facts;
    } else {
      assert w.fact !in Elements(u.operations);
    }
  }

  lemma HoldsFirst(next: int, w: Write)
    requires ValidOperation(w.fact)
    ensures Holds(WriteOne(map[], next, w)[w.state.key], next, w.state.key, w.state.value, Kept(w.state, next), {w.fact})
  {
    var u := NewUpdater(Clear(w.state), next);
    HoldsAfterWrite(u, next, w.state.key, w.state.value, Kept(w.state, next), {}, w);
  }

  lemma FactsForAppend(ws: seq<Write>, w: Write, key: Bytes)
    ensures FactsFor(ws + [w], key) == FactsFor(ws, key) + if w.state.key == key then {w.fact} else {}
    ensures KeysOf(ws + [w]) == KeysOf(ws) + {w.state.key}
  {
    assert forall v :: v in ws + [w] <==> v in ws || v == w;
  }

  lemma {:induction false} PoolKeys(ws: seq<Write>, next: int)
    ensures WriteAll(map[], next, ws).Keys == KeysOf(ws)
    decreases |ws|
  {
    if ws != [] {
      var front, last := ws[..|ws| - 1], ws[|ws| - 1];
      PoolKeys(front, next);
      FactsForAppend(front, last, last.state.key);
      assert ws == front + [last];
    }
  }

  lemma {:induction false} NothingWritten(ws: seq<Write>, key: Bytes)
    requires key !in KeysOf(ws)
    ensures FirstValue(ws, key) == None && FactsFor(ws, key) == {}
    decreases |ws|
  {
    if ws != [] {
      var front, last := ws[..|ws| - 1], ws[|ws| - 1];
      assert ws == front + [last];
      FactsForAppend(front, last, key);
      NothingWritten(front, key);
    }
  }

  /** `updated` holds for a key what the writes say. */
  ghost predicate PoolHoldsKey(updated: Updates, ws: seq<Write>, next: int, key: Bytes) {
    key in updated && Holds(updated[key], next, key, FirstValue(ws, key), LastKept(ws, key, next), FactsFor(ws, key))
  }

  /** The pool after any sequence of writes holds for each key the first value written, the height kept by the
      last write, and the operations that wrote it, once each. */
  lemma {:induction false} PoolHolds(ws: seq<Write>, next: int, key: Bytes)
    requires AllValid(ws) && key in KeysOf(ws)
    ensures PoolHoldsKey(WriteAll(map[], next, ws), ws, next, key)
    decreases |ws|
  {
    var front, last := ws[..|ws| - 1], ws[|ws| - 1];
    assert ws == front + [last];
    FactsForAppend(front, last, key);
    assert AllValid(front) && ValidOperation(last.fact) by {
      assert forall v :: v in front ==> v in ws;
      assert last in ws;
    }
    if key in KeysOf(front) {
      PoolHolds(front, next, key);
    } else {
      NothingWritten(front, key);
    }
    PoolKeys(front, next);
    WriteHolds(WriteAll(map[], next, front), front, last, next, key);
  }

  lemma WriteHolds(updated: Updates, front: seq<Write>, last: Write, next: int, key: Bytes)
    requires ValidOperation(last.fact) && (key in updated || last.state.key == key)
    requires key in updated ==> PoolHoldsKey(updated, front, next, key)
    requires key !in updated ==> FirstValue(front, key) == None && FactsFor(front, key) == {}
    ensures PoolHoldsKey(WriteOne(updated, next, last), front + [last], next, key)
  {
    assert (front + [last])[..|front|] == front;
    FactsForAppend(front, last, key);
    if last.state.key == key {
      if key in updated {
        HoldsAfterWrite(updated[key], next, key, FirstValue(front, key), LastKept(front, key, next), FactsFor(front, key), last);
      } else {
        HoldsFirst(next, last);
      }
    }
  }

  // ---------------------------------------------------------------------------
  // The states tree

  /** The hash of a state, as a function of the hashed fields. */
  type StateHash = (Bytes, Option<string>, int, seq<Bytes>) -> Bytes

  function Self(b: Bytes): Bytes {
    b
  }

  /** The state that StatesTree makes of an updater. GenerateHash sorts the operations in place, in the
      slice that the state shares, so the state itself has them sorted. */
  function Final(sha: StateHash, u: Updater): State {
    var st := GetState(u);
    var ops := Sort(st.operations, Self);
    st.(operations := ops, hash := Some(sha(st.key, st.value, st.previousHeight, ops)))
  }

  function HashOf(st: State): Bytes {
    if st.hash.Some? then st.hash.value else []
  }

  function Finals(sha: StateHash, updated: Updates, ks: seq<Bytes>): (r: seq<State>)
    requires forall k :: k in ks ==> k in updated
    ensures |r| == |ks| && forall i :: 0 <= i < |ks| ==> r[i] == Final(sha, updated[ks[i]])
  {
    seq(|ks|, i requires 0 <= i < |ks| => Final(sha, updated[ks[i]]))
  }

  /** `ks` lists the updated keys. */
  ghost predicate ListsKeys(updated: Updates, ks: seq<Bytes>) {
    Distinct(ks) && forall k :: k in ks <==> k in updated
  }

  /** `out` is a list that StatesTree may return: the final states sorted by hash. */
  ghost predicate StatesTreeOf(sha: StateHash, updated: Updates, out: seq<State>) {
    && Sorted(out, HashOf)
    && exists ks :: ListsKeys(updated, ks) && multiset(out) == multiset(Finals(sha, updated, ks))
  }

  /** Statepool.Updates: the keys of the updaters, sorted. */
  method SortedKeys(updated: Updates) returns (ks: seq<Bytes>)
    ensures ListsKeys(updated, ks) && Sorted(ks, Self)
  {
    ks := [];
    var rest := updated.Keys;
    while rest != {}
      invariant rest <= updated.Keys && Distinct(ks)
      invariant forall k :: k in ks <==> k in updated && k !in rest
      decreases |rest|
    {
      var k :| k in rest;
      ks := ks + [k];
      rest := rest - {k};
    }
    ghost var given := ks;
    ks := Sort(ks, Self);
    SortSorts(given, Self);
    Rearranged(given, ks);
  }

  /** StatesTree: fails if a final state has no value. */
  method StatesTree(sha: StateHash, updated: Updates) returns (r: Result<seq<State>>)
    ensures r.Ok? <==> AllHaveValues(updated)
    ensures r.Ok? ==> StatesTreeOf(sha, updated, r.value)
  {
    var ks := SortedKeys(updated);
    var states: seq<State> := [];
    for i := 0 to |ks|
      invariant states == Finals(sha, updated, ks[..i])
      invariant forall j :: 0 <= j < i ==> updated[ks[j]].state.value.Some?
    {
      assert ks[i] in ks;
      var st := Final(sha, updated[ks[i]]);
      if st.value.None? {
        return Err;
      }
      states := states + [st];
    }
    assert ks[..|ks|] == ks;
    SortSorts(states, HashOf);
    return Ok(Sort(states, HashOf));
  }

  /** No two keys end with the same state hash. */
  ghost predicate NoCollision(sha: StateHash, updated: Updates) {
    forall j, k :: j in updated && k in updated && j != k ==> HashOf(Final(sha, updated[j])) != HashOf(Final(sha, updated[k]))
  }

  /** Two updaters that hold the same end in the same state. */
  lemma SameFinal(sha: StateHash, u: Updater, v: Updater, next: int, key: Bytes, value: Option<string>, kept: int, facts: set<Bytes>)
    requires Holds(u, next, key, value, kept, facts) && Holds(v, next, key, value, kept, facts)
    ensures Final(sha, u) == Final(sha, v)
  {
    var a, b := u.operations, v.operations;
    assert forall x :: x in a <==> x in Elements(a);
    assert forall x :: x in b <==> x in Elements(b);
    SameElements(a, b);
    SortSorts(a, Self);
    SortSorts(b, Self);
    SortedUnique(Sort(a, Self), Sort(b, Self), Self);
  }

  lemma FinalsDistinct(sha: StateHash, updated: Updates, ks: seq<Bytes>)
    requires ListsKeys(updated, ks) && forall k :: k in updated ==> Final(sha, updated[k]).key == k
    ensures Distinct(Finals(sha, updated, ks))
    ensures forall st :: st in Finals(sha, updated, ks) <==> st.key in updated && st == Final(sha, updated[st.key])
  {
    var r := Finals(sha, updated, ks);
    forall i | 0 <= i < |ks| ensures r[i].key == ks[i] && ks[i] in updated {
      assert ks[i] in ks;
    }
    forall st: State | st.key in updated && st == Final(sha, updated[st.key]) ensures st in r {
      assert st.key in ks;
      var i :| 0 <= i < |ks| && ks[i] == st.key;
      assert r[i] == st;
    }
  }

  // ---------------------------------------------------------------------------
  // Runs of calls

  /** The updaters after a sequence of calls on a new pool. */
  function PoolAfter(next: int, calls: seq<Call>): Updates {
    if calls == [] then map[]
    else
      var before := PoolAfter(next, calls[..|calls| - 1]);
      match calls[|calls| - 1]
      case GetCall(_, _) => before
      case SetCall(fact, states) => WriteAll(before, next, WritesOf(fact, states))
  }

  /** All writes of a sequence of calls, in order. */
  ghost function AllWrites(calls: seq<Call>): seq<Write> {
    if calls == [] then []
    else AllWrites(calls[..|calls| - 1]) + WritesBy(calls[|calls| - 1])
  }

  ghost function WritesBy(c: Call): seq<Write> {
    if c.SetCall? then WritesOf(c.fact, c.states) else []
  }

  lemma {:induction false} WriteAllConcat(updated: Updates, next: int, a: seq<Write>, b: seq<Write>)
    ensures WriteAll(updated, next, a + b) == WriteAll(WriteAll(updated, next, a), next, b)
    decreases |b|
  {
    if b == [] {
      assert a + b == a;
    } else {
      WriteAllConcat(updated, next, a, b[..|b| - 1]);
      assert (a + b)[..|a + b| - 1] == a + b[..|b| - 1];
    }
  }

  /** A run of calls writes one state after the other. */
  lemma {:induction false} PoolIsWrites(next: int, calls: seq<Call>)
    ensures PoolAfter(next, calls) == WriteAll(map[], next, AllWrites(calls))
    decreases |calls|
  {
    if calls != [] {
      var front, last := calls[..|calls| - 1], calls[|calls| - 1];
      PoolIsWrites(next, front);
      WriteAllConcat(map[], next, AllWrites(front), WritesBy(last));
    }
  }

  lemma AllWritesAppend(front: seq<Call>, c: Call)
    ensures AllWrites(front + [c]) == AllWrites(front) + WritesBy(c)
  {
    assert (front + [c])[..|front|] == front;
  }

  lemma {:induction false} WrittenBySome(calls: seq<Call>, w: Write)
    ensures w in AllWrites(calls) <==> exists c :: c in calls && w in WritesBy(c)
    decreases |calls|
  {
    if calls == [] {
    } else {
      var front, last := calls[..|calls| - 1], calls[|calls| - 1];
      assert calls == front + [last];
      WrittenBySome(front, w);
      assert forall c :: c in calls <==> c in front || c == last;
    }
  }

  lemma {:induction false} FirstOfConcat(a: seq<Write>, b: seq<Write>, key: Bytes)
    ensures FirstValue(a + b, key) == if FirstValue(a, key).Some? then FirstValue(a, key) else FirstValue(b, key)
    decreases |b|
  {
    if b == [] {
      assert a + b == a;
    } else {
      FirstOfConcat(a, b[..|b| - 1], key);
      assert (a + b)[..|a + b| - 1] == a + b[..|b| - 1];
    }
  }

  lemma {:induction false} LastOfConcat(a: seq<Write>, b: seq<Write>, key: Bytes, next: int)
    ensures LastKept(a + b, key, next) == if key in KeysOf(b) then LastKept(b, key, next) else LastKept(a, key, next)
    decreases |b|
  {
    if b == [] {
      assert a + b == a;
    } else {
      var front, last := b[..|b| - 1], b[|b| - 1];
      LastOfConcat(a, front, key, next);
      assert (a + b)[..|a + b| - 1] == a + front && b == front + [last];
      FactsForAppend(front, last, key);
    }
  }

  /** The first value of a run is that of one of its calls, if any call has one. */
  lemma {:induction false} FirstOfCalls(calls: seq<Call>, key: Bytes)
    ensures var v := FirstValue(AllWrites(calls), key);
            if v.Some? then exists c :: c in calls && FirstValue(WritesBy(c), key) == v
            else forall c :: c in calls ==> FirstValue(WritesBy(c), key) == None
    decreases |calls|
  {
    if calls != [] {
      var front, last := calls[..|calls| - 1], calls[|calls| - 1];
      assert calls == front + [last];
      FirstOfCalls(front, key);
      FirstOfConcat(AllWrites(front), WritesBy(last), key);
      assert last in calls && forall c :: c in front ==> c in calls;
    }
  }

  /** The last kept height of a run is that of one of the calls that wrote the key. */
  lemma {:induction false} LastOfCalls(calls: seq<Call>, key: Bytes, next: int)
    requires key in KeysOf(AllWrites(calls))
    ensures exists c :: c in calls && key in KeysOf(WritesBy(c)) && LastKept(WritesBy(c), key, next) == LastKept(AllWrites(calls), key, next)
    decreases |calls|
  {
    var front, last := calls[..|calls| - 1], calls[|calls| - 1];
    assert calls == front + [last];
    LastOfConcat(AllWrites(front), WritesBy(last), key, next);
    if key in KeysOf(WritesBy(last)) {
      assert last in calls;
    } else {
      LastOfCalls(front, key, next);
      assert forall c :: c in front ==> c in calls;
    }
  }

  // ---------------------------------------------------------------------------
  // Independence of the schedule

  /** Where two calls both write a key they agree on what matters: the first value that each writes, if both
      write one, and the height that each keeps last. */
  ghost predicate CallsAgree(c: Call, d: Call, next: int) {
    forall key ::
      && (FirstValue(WritesBy(c), key).Some? && FirstValue(WritesBy(d), key).Some? ==>
            FirstValue(WritesBy(c), key) == FirstValue(WritesBy(d), key))
      && (key in KeysOf(WritesBy(c)) && key in KeysOf(WritesBy(d)) ==>
            LastKept(WritesBy(c), key, next) == LastKept(WritesBy(d), key, next))
  }

  ghost predicate AllAgree(calls: seq<Call>, next: int) {
    forall c, d :: c in calls && d in calls ==> CallsAgree(c, d, next)
  }

  ghost predicate ValidCalls(calls: seq<Call>) {
    forall c :: c in calls && c.SetCall? ==> ValidOperation(c.fact)
  }

  lemma ValidWrites(calls: seq<Call>)
    requires ValidCalls(calls)
    ensures AllValid(AllWrites(calls))
  {
    forall w | w in AllWrites(calls) ensures ValidOperation(w.fact) {
      WrittenBySome(calls, w);
    }
  }

  /** Different arguments, different hashes. */
  ghost predicate Injective(sha: StateHash) {
    forall k, v, h, ops, k', v', h', ops' :: sha(k, v, h, ops) == sha(k', v', h', ops') ==> k == k' && v == v' && h == h' && ops == ops'
  }

  /** The final state of a key after a run of calls. */
  ghost predicate EndsIn(sha: StateHash, next: int, calls: seq<Call>, key: Bytes, st: State) {
    var pool := PoolAfter(next, calls);
    key in pool && Final(sha, pool[key]) == st
  }

  /** What a final state shows of a run: its key, the first value written, the pool's height, the height kept by the
      last write, the operations that wrote it, once each and in order, and the hash of these. */
  lemma FinalShows(sha: StateHash, next: int, calls: seq<Call>, key: Bytes)
    requires ValidCalls(calls) && key in KeysOf(AllWrites(calls))
    ensures PoolHoldsKey(PoolAfter(next, calls), AllWrites(calls), next, key)
    ensures var st, ws := Final(sha, PoolAfter(next, calls)[key]), AllWrites(calls);
            && st.key == key && st.value == FirstValue(ws, key)
            && st.height == next && st.previousHeight == LastKept(ws, key, next)
            && Distinct(st.operations) && Elements(st.operations) == FactsFor(ws, key) && Sorted(st.operations, Self)
            && st.hash == Some(sha(key, FirstValue(ws, key), LastKept(ws, key, next), st.operations))
  {
    ValidWrites(calls);
    PoolIsWrites(next, calls);
    PoolHolds(AllWrites(calls), next, key);
    SortedOperations(PoolAfter(next, calls)[key].operations);
  }

  lemma SortedOperations(ops: seq<Bytes>)
    requires Distinct(ops)
    ensures Distinct(Sort(ops, Self)) && Elements(Sort(ops, Self)) == Elements(ops) && Sorted(Sort(ops, Self), Self)
  {
    SortSorts(ops, Self);
    Rearranged(ops, Sort(ops, Self));
  }

  lemma SameSortedOperations(a: seq<Bytes>, b: seq<Bytes>)
    requires Distinct(a) && Distinct(b) && Sorted(a, Self) && Sorted(b, Self) && Elements(a) == Elements(b)
    ensures a == b
  {
    assert forall x :: x in a <==> x in Elements(a);
    assert forall x :: x in b <==> x in Elements(b);
    SameElements(a, b);
    SortedUnique(a, b, Self);
  }

  /** What the hash of a final state tells, exactly: with an injective hash two runs end two keys in states of one
      hash if and only if the keys are the same, and so are the first values written, the heights last kept,
      and the operations that wrote them. */
  lemma HashTells(sha: StateHash, next: int, calls: seq<Call>, key: Bytes, calls': seq<Call>, key': Bytes)
    requires Injective(sha) && ValidCalls(calls) && ValidCalls(calls')
    requires key in KeysOf(AllWrites(calls)) && key' in KeysOf(AllWrites(calls'))
    ensures key in PoolAfter(next, calls) && key' in PoolAfter(next, calls')
    ensures var ws, ws' := AllWrites(calls), AllWrites(calls');
            Final(sha, PoolAfter(next, calls)[key]).hash == Final(sha, PoolAfter(next, calls')[key']).hash <==>
              && key == key'
              && FirstValue(ws, key) == FirstValue(ws', key')
              && LastKept(ws, key, next) == LastKept(ws', key', next)
              && FactsFor(ws, key) == FactsFor(ws', key')
  {
    FinalShows(sha, next, calls, key);
    FinalShows(sha, next, calls', key');
    var st, st' := Final(sha, PoolAfter(next, calls)[key]), Final(sha, PoolAfter(next, calls')[key']);
    if FactsFor(AllWrites(calls), key) == FactsFor(AllWrites(calls'), key') {
      SameSortedOperations(st.operations, st'.operations);
    }
  }

  /** The same Set calls, in any order, with any Get calls. */
  ghost predicate SameCalls(calls: seq<Call>, calls': seq<Call>) {
    forall c: Call :: c.SetCall? ==> (c in calls <==> c in calls')
  }

  lemma SameWrites(calls: seq<Call>, calls': seq<Call>)
    requires SameCalls(calls, calls')
    ensures forall w :: w in AllWrites(calls) <==> w in AllWrites(calls')
    ensures KeysOf(AllWrites(calls)) == KeysOf(AllWrites(calls'))
  {
    forall w ensures w in AllWrites(calls) <==> w in AllWrites(calls') {
      WrittenBySome(calls, w);
      WrittenBySome(calls', w);
    }
  }

  lemma SameKeys(calls: seq<Call>, calls': seq<Call>, next: int)
    requires SameCalls(calls, calls')
    ensures PoolAfter(next, calls).Keys == PoolAfter(next, calls').Keys == KeysOf(AllWrites(calls))
  {
    SameWrites(calls, calls');
    PoolIsWrites(next, calls);
    PoolIsWrites(next, calls');
    PoolKeys(AllWrites(calls), next);
    PoolKeys(AllWrites(calls'), next);
  }

  /** Agreeing calls leave the same of a key in any order. */
  lemma SameLeft(calls: seq<Call>, calls': seq<Call>, next: int, key: Bytes)
    requires AllAgree(calls, next) && SameCalls(calls, calls') && key in KeysOf(AllWrites(calls))
    ensures FirstValue(AllWrites(calls), key) == FirstValue(AllWrites(calls'), key)
    ensures LastKept(AllWrites(calls), key, next) == LastKept(AllWrites(calls'), key, next)
  {
    SameWrites(calls, calls');
    FirstOfCalls(calls, key);
    FirstOfCalls(calls', key);
    LastOfCalls(calls, key, next);
    LastOfCalls(calls', key, next);
    var c :| c in calls && key in KeysOf(WritesBy(c)) && LastKept(WritesBy(c), key, next) == LastKept(AllWrites(calls), key, next);
    var d :| d in calls' && key in KeysOf(WritesBy(d)) && LastKept(WritesBy(d), key, next) == LastKept(AllWrites(calls'), key, next);
    assert CallsAgree(c, d, next);
    if FirstValue(AllWrites(calls), key).Some? && FirstValue(AllWrites(calls'), key).Some? {
      var c' :| c' in calls && FirstValue(WritesBy(c'), key) == FirstValue(AllWrites(calls), key);
      var d' :| d' in calls' && FirstValue(WritesBy(d'), key) == FirstValue(AllWrites(calls'), key);
      assert CallsAgree(c', d', next);
    }
  }

  lemma SameFinals(calls: seq<Call>, calls': seq<Call>, next: int, sha: StateHash, key: Bytes)
    requires ValidCalls(calls) && AllAgree(calls, next) && SameCalls(calls, calls')
    requires key in KeysOf(AllWrites(calls))
    ensures var a, b := PoolAfter(next, calls), PoolAfter(next, calls');
            key in a && key in b && Final(sha, a[key]) == Final(sha, b[key]) && Final(sha, a[key]).key == key
  {
    SameWrites(calls, calls');
    SameLeft(calls, calls', next, key);
    FinalShows(sha, next, calls, key);
    FinalShows(sha, next, calls', key);
    var ws, ws' := AllWrites(calls), AllWrites(calls');
    assert FactsFor(ws, key) == FactsFor(ws', key);
    SameFinal(sha, PoolAfter(next, calls)[key], PoolAfter(next, calls')[key], next, key,
              FirstValue(ws, key), LastKept(ws, key, next), FactsFor(ws, key));
  }

  /** Schedule independence: if the Set calls agree where they write the same key, and no two final hashes
      collide, every rearrangement of the calls (with any Get calls in between) gives the same list of
      states, with the same operations and the same hashes, in the same order. */
  lemma ScheduleIndependence(calls: seq<Call>, calls': seq<Call>, next: int, sha: StateHash, out: seq<State>, out': seq<State>)
    requires ValidCalls(calls) && AllAgree(calls, next) && SameCalls(calls, calls')
    requires NoCollision(sha, PoolAfter(next, calls))
    requires StatesTreeOf(sha, PoolAfter(next, calls), out)
    requires StatesTreeOf(sha, PoolAfter(next, calls'), out')
    ensures out == out'
  {
    SameKeys(calls, calls', next);
    forall k | k in PoolAfter(next, calls)
      ensures Final(sha, PoolAfter(next, calls)[k]) == Final(sha, PoolAfter(next, calls')[k])
      ensures Final(sha, PoolAfter(next, calls)[k]).key == k
    {
      SameFinals(calls, calls', next, sha, k);
    }
    SameTrees(sha, PoolAfter(next, calls), PoolAfter(next, calls'), out, out');
  }

  lemma TreeOf(sha: StateHash, updated: Updates, out: seq<State>)
    requires StatesTreeOf(sha, updated, out) && forall k :: k in updated ==> Final(sha, updated[k]).key == k
    ensures Distinct(out)
    ensures forall st :: st in out <==> st.key in updated && st == Final(sha, updated[st.key])
  {
    var ks :| ListsKeys(updated, ks) && multiset(out) == multiset(Finals(sha, updated, ks));
    FinalsDistinct(sha, updated, ks);
    Rearranged(Finals(sha, updated, ks), out);
  }

  lemma SameTrees(sha: StateHash, a: Updates, b: Updates, out: seq<State>, out': seq<State>)
    requires a.Keys == b.Keys && NoCollision(sha, a)
    requires forall k :: k in a ==> Final(sha, a[k]) == Final(sha, b[k]) && Final(sha, a[k]).key == k
    requires StatesTreeOf(sha, a, out) && StatesTreeOf(sha, b, out')
    ensures out == out'
  {
    TreeOf(sha, a, out);
    TreeOf(sha, b, out');
    SameElements(out, out');
    forall x, y | x in out && y in out && x != y ensures HashOf(x) != HashOf(y) {
      assert x.key != y.key;
    }
    SortedUnique(out, out', HashOf);
  }

  /** A run gives a final state of the key other than the run `calls'` does. */
  ghost predicate Differ(sha: StateHash, next: int, calls: seq<Call>, calls': seq<Call>, key: Bytes) {
    exists st, st' :: EndsIn(sha, next, calls, key, st) && EndsIn(sha, next, calls', key, st') && st != st'
  }

  /** Every rearrangement of the calls ends every key in the same state. */
  ghost predicate Independent(sha: StateHash, next: int, calls: seq<Call>) {
    forall calls', key :: multiset(calls') == multiset(calls) ==> !Differ(sha, next, calls, calls', key)
  }

  lemma Rearrangement(calls: seq<Call>, calls': seq<Call>)
    requires multiset(calls) == multiset(calls')
    ensures SameCalls(calls, calls')
  {
    forall c ensures c in calls <==> c in calls' {
      assert c in multiset(calls) <==> c in multiset(calls');
    }
  }

  /** The call number `i` moved to the front, or to the end. */
  function First(calls: seq<Call>, i: nat): seq<Call>
    requires i < |calls|
  {
    [calls[i]] + (calls[..i] + calls[i + 1..])
  }

  function Last(calls: seq<Call>, i: nat): seq<Call>
    requires i < |calls|
  {
    (calls[..i] + calls[i + 1..]) + [calls[i]]
  }

  lemma Moved(calls: seq<Call>, i: nat)
    requires i < |calls|
    ensures multiset(First(calls, i)) == multiset(calls) && multiset(Last(calls, i)) == multiset(calls)
  {
    assert calls == calls[..i] + [calls[i]] + calls[i + 1..];
  }

  /** The first call decides the value. */
  lemma {:induction false} FirstShows(c: Call, rest: seq<Call>, key: Bytes)
    requires FirstValue(WritesBy(c), key).Some?
    ensures FirstValue(AllWrites([c] + rest), key) == FirstValue(WritesBy(c), key)
    decreases |rest|
  {
    if rest == [] {
      assert [c] + rest == [c];
      AllWritesOne(c);
    } else {
      var front, last := rest[..|rest| - 1], rest[|rest| - 1];
      FirstShows(c, front, key);
      assert [c] + rest == ([c] + front) + [last];
      AllWritesAppend([c] + front, last);
      FirstOfConcat(AllWrites([c] + front), WritesBy(last), key);
    }
  }

  lemma AllWritesOne(c: Call)
    ensures AllWrites([c]) == WritesBy(c)
  {
    AllWritesAppend([], c);
    assert [] + [c] == [c];
  }

  /** The last call decides the kept height. */
  lemma LastShows(calls: seq<Call>, i: nat, key: Bytes, next: int)
    requires i < |calls| && key in KeysOf(WritesBy(calls[i]))
    ensures LastKept(AllWrites(Last(calls, i)), key, next) == LastKept(WritesBy(calls[i]), key, next)
  {
    var c, rest := calls[i], calls[..i] + calls[i + 1..];
    AllWritesAppend(rest, c);
    LastOfConcat(AllWrites(rest), WritesBy(c), key, next);
  }

  lemma WrittenIn(calls: seq<Call>, c: Call, key: Bytes)
    requires c in calls && key in KeysOf(WritesBy(c))
    ensures key in KeysOf(AllWrites(calls))
  {
    var w :| w in WritesBy(c) && w.state.key == key;
    WrittenBySome(calls, w);
  }

  /** Of two rearrangements that end a key in different states, one differs from the calls as they are. */
  lemma SomeDiffers(sha: StateHash, next: int, calls: seq<Call>, a: seq<Call>, b: seq<Call>, key: Bytes)
    requires ValidCalls(calls) && multiset(a) == multiset(calls) && multiset(b) == multiset(calls)
    requires key in KeysOf(AllWrites(calls))
    requires FirstValue(AllWrites(a), key) != FirstValue(AllWrites(b), key)
             || LastKept(AllWrites(a), key, next) != LastKept(AllWrites(b), key, next)
    ensures !Independent(sha, next, calls)
  {
    Rearrangement(calls, a);
    Rearrangement(calls, b);
    SameWrites(calls, a);
    SameWrites(calls, b);
    FinalShows(sha, next, calls, key);
    FinalShows(sha, next, a, key);
    FinalShows(sha, next, b, key);
    var st, sa, sb := Final(sha, PoolAfter(next, calls)[key]), Final(sha, PoolAfter(next, a)[key]), Final(sha, PoolAfter(next, b)[key]);
    assert EndsIn(sha, next, calls, key, st) && EndsIn(sha, next, a, key, sa) && EndsIn(sha, next, b, key, sb);
    assert Differ(sha, next, calls, a, key) || Differ(sha, next, calls, b, key);
  }

  lemma DisagreementShows(sha: StateHash, next: int, calls: seq<Call>, i: nat, j: nat)
    requires ValidCalls(calls) && i < |calls| && j < |calls| && !CallsAgree(calls[i], calls[j], next)
    ensures !Independent(sha, next, calls)
  {
    var c, d := calls[i], calls[j];
    var key :| !(
        && (FirstValue(WritesBy(c), key).Some? && FirstValue(WritesBy(d), key).Some? ==>
              FirstValue(WritesBy(c), key) == FirstValue(WritesBy(d), key))
        && (key in KeysOf(WritesBy(c)) && key in KeysOf(WritesBy(d)) ==>
              LastKept(WritesBy(c), key, next) == LastKept(WritesBy(d), key, next)));
    if key !in KeysOf(WritesBy(c)) {
      NothingWritten(WritesBy(c), key);
    }
    WrittenIn(calls, c, key);
    Moved(calls, i);
    Moved(calls, j);
    if FirstValue(WritesBy(c), key).Some? && FirstValue(WritesBy(d), key).Some? && FirstValue(WritesBy(c), key) != FirstValue(WritesBy(d), key) {
      FirstShows(c, calls[..i] + calls[i + 1..], key);
      FirstShows(d, calls[..j] + calls[j + 1..], key);
      SomeDiffers(sha, next, calls, First(calls, i), First(calls, j), key);
    } else {
      LastShows(calls, i, key, next);
      LastShows(calls, j, key, next);
      SomeDiffers(sha, next, calls, Last(calls, i), Last(calls, j), key);
    }
  }

  /** Independence of the schedule, exactly: whatever the hash, every rearrangement of the calls ends every key
      in the same state if and only if the calls agree. */
  lemma IndependentExactly(sha: StateHash, next: int, calls: seq<Call>)
    requires ValidCalls(calls)
    ensures Independent(sha, next, calls) <==> AllAgree(calls, next)
  {
    if AllAgree(calls, next) {
      forall calls', key | multiset(calls') == multiset(calls) ensures !Differ(sha, next, calls, calls', key) {
        Rearrangement(calls, calls');
        SameKeys(calls, calls', next);
        if key in KeysOf(AllWrites(calls)) {
          SameFinals(calls, calls', next, sha, key);
        }
      }
    } else {
      var c, d :| c in calls && d in calls && !CallsAgree(c, d, next);
      var i :| 0 <= i < |calls| && calls[i] == c;
      var j :| 0 <= j < |calls| && calls[j] == d;
      DisagreementShows(sha, next, calls, i, j);
    }
  }

  /** StatesTree succeeds. */
  ghost predicate AllHaveValues(updated: Updates) {
    forall k :: k in updated ==> updated[k].state.value.Some?
  }

  /** Whether StatesTree fails never depends on the schedule, also of calls that do not agree. */
  lemma SameFailure(calls: seq<Call>, calls': seq<Call>, next: int)
    requires ValidCalls(calls) && SameCalls(calls, calls')
    ensures AllHaveValues(PoolAfter(next, calls)) <==> AllHaveValues(PoolAfter(next, calls'))
  {
    SameKeys(calls, calls', next);
    forall k | k in PoolAfter(next, calls)
      ensures PoolAfter(next, calls)[k].state.value.Some? <==> PoolAfter(next, calls')[k].state.value.Some?
    {
      SameWrites(calls, calls');
      HasValueIfSomeCallDoes(calls, next, k);
      HasValueIfSomeCallDoes(calls', next, k);
    }
  }

  /** An updater has a value exactly if some call writes one. */
  lemma HasValueIfSomeCallDoes(calls: seq<Call>, next: int, key: Bytes)
    requires ValidCalls(calls) && key in KeysOf(AllWrites(calls))
    ensures key in PoolAfter(next, calls)
    ensures PoolAfter(next, calls)[key].state.value.Some? <==> exists c :: c in calls && FirstValue(WritesBy(c), key).Some?
  {
    var plain: StateHash := (_, _, _, _) => [];
    FinalShows(plain, next, calls, key);
    FirstOfCalls(calls, key);
  }

  /** A hash that tells keys apart lets no two keys collide, so that agreeing calls always give one list. */
  lemma OneListForDistinguishingHash(calls: seq<Call>, calls': seq<Call>, next: int, sha: StateHash, out: seq<State>, out': seq<State>)
    requires ValidCalls(calls) && AllAgree(calls, next) && SameCalls(calls, calls')
    requires forall k, v, h, ops, k', v', h', ops' :: k != k' ==> sha(k, v, h, ops) != sha(k', v', h', ops')
    requires StatesTreeOf(sha, PoolAfter(next, calls), out)
    requires StatesTreeOf(sha, PoolAfter(next, calls'), out')
    ensures out == out'
  {
    SameKeys(calls, calls, next);
    forall k | k in PoolAfter(next, calls) ensures Final(sha, PoolAfter(next, calls)[k]).key == k {
      FinalShows(sha, next, calls, k);
    }
    ScheduleIndependence(calls, calls', next, sha, out, out');
  }

  /** A key that ends differently shows in the lists. */
  lemma DifferentLists(calls: seq<Call>, calls': seq<Call>, next: int, sha: StateHash, key: Bytes, out: seq<State>, out': seq<State>)
    requires ValidCalls(calls) && SameCalls(calls, calls') && Differ(sha, next, calls, calls', key)
    requires StatesTreeOf(sha, PoolAfter(next, calls), out)
    requires StatesTreeOf(sha, PoolAfter(next, calls'), out')
    ensures out != out'
  {
    SameKeys(calls, calls', next);
    SameWrites(calls, calls');
    forall k | k in PoolAfter(next, calls)
      ensures Final(sha, PoolAfter(next, calls)[k]).key == k && Final(sha, PoolAfter(next, calls')[k]).key == k
    {
      FinalShows(sha, next, calls, k);
      FinalShows(sha, next, calls', k);
    }
    TreeOf(sha, PoolAfter(next, calls), out);
    TreeOf(sha, PoolAfter(next, calls'), out');
    var st := Final(sha, PoolAfter(next, calls)[key]);
    assert st in out && st !in out';
  }
}
