/** Values shared by the whole model: optional values, heights, rounds, stages and points. */
module Base {

  /** A value that may be absent; failure-compatible, so that `:-` passes on an absent one. */
  datatype Option<+T> = None | Some(value: T) {
    predicate IsFailure() {
      None?
    }
    function PropagateFailure<U>(): Option<U>
      requires None?
    {
      None
    }
    function Extract(): T
      requires Some?
    {
      value
    }
  }

  /** The result of an operation that the source lets fail with an error; failure-compatible. */
  datatype Result<+T> = Ok(value: T) | Err {
    predicate IsFailure() {
      Err?
    }
    function PropagateFailure<U>(): Result<U>
      requires Err?
    {
      Err
    }
    function Extract(): T
      requires Ok?
    {
      value
    }
  }

  /** Go's `uint` and `uint64` have this many values; arithmetic on them wraps. */
  const UINT_MODULUS: int := 0x1_0000_0000_0000_0000
  const INT64_LIMIT: int := 0x8000_0000_0000_0000

  type Uint = n: int | 0 <= n < UINT_MODULUS
  type Int64 = n: int | -INT64_LIMIT <= n < INT64_LIMIT
  type Uint8 = n: int | 0 <= n < 256

  /** Unsigned wrap-around. */
  function Wrap(x: int): (w: Uint) {
    x % UINT_MODULUS
  }

  /** Two's complement wrap-around of a signed 64-bit integer. */
  function WrapInt64(x: int): (w: Int64) {
    var u := x % UINT_MODULUS;
    if u < INT64_LIMIT then u else u - UINT_MODULUS
  }

  const NIL_HEIGHT: Int64 := -2
  const PRE_GENESIS_HEIGHT: Int64 := -1
  const GENESIS_HEIGHT: Int64 := 0

  const STAGE_INIT: Uint8 := 1
  const STAGE_PROPOSAL: Uint8 := 2
  const STAGE_ACCEPT: Uint8 := 3

  /** The place a ballot votes for. */
  datatype Point = Point(height: Int64, round: Uint, stage: Uint8)

  predicate CanVote(stage: Uint8) {
    stage == STAGE_INIT || stage == STAGE_ACCEPT
  }

  /** Node addresses and hashes, each in its string form, which the source uses as map keys. */
  datatype Address = Address(text: string)
  datatype Hash = Hash(text: string)

  function Min(a: int, b: int): int {
    if a <= b then a else b
  }

  ghost predicate Distinct<T>(s: seq<T>) {
    forall i, j :: 0 <= i < j < |s| ==> s[i] != s[j]
  }

  ghost function Elements<T>(s: seq<T>): set<T> {
    set x | x in s
  }

  lemma ElementsAppend<T>(s: seq<T>, x: T)
    ensures Elements(s + [x]) == Elements(s) + {x}
  {
    assert forall y :: y in s + [x] <==> y in s || y == x;
  }

  lemma WrapAdd(a: int, b: int)
    ensures Wrap(Wrap(a) + b) == Wrap(a + b)
  {
    var q := a / UINT_MODULUS;
    assert a == UINT_MODULUS * q + Wrap(a);
    WrapShift(Wrap(a) + b, q);
  }

  lemma WrapSub(a: int, b: int)
    ensures Wrap(a - Wrap(b)) == Wrap(a - b)
  {
    var q := b / UINT_MODULUS;
    assert b == UINT_MODULUS * q + Wrap(b);
    WrapShift(a - b, q);
  }

  lemma WrapShift(x: int, q: int)
    ensures Wrap(x + UINT_MODULUS * q) == Wrap(x)
  {
  }

  /** A sequence without repetition has as many elements as its set. */
  lemma {:induction false} DistinctSize<T>(s: seq<T>)
    requires Distinct(s)
    ensures |Elements(s)| == |s|
  {
    if s == [] {
    } else {
      var front, last := s[..|s| - 1], s[|s| - 1];
      DistinctSize(front);
      ElementsAppend(front, last);
      assert front + [last] == s;
      assert last !in Elements(front);
    }
  }

  lemma SubsetSize<T>(a: set<T>, b: set<T>)
    requires a <= b
    ensures |a| <= |b|
  {
    assert b == a + (b - a);
  }

  /** Two subsets of one finite set overlap in at least the excess of their sizes. */
  lemma Overlap<T>(a: set<T>, b: set<T>, whole: set<T>)
    requires a <= whole && b <= whole
    ensures |a * b| >= |a| + |b| - |whole|
  {
    assert |a + b| == |a| + |b| - |a * b|;
    SubsetSize(a + b, whole);
  }

  /** Every finite set can be listed. */
  lemma {:induction false} ListSet<T>(s: set<T>) returns (xs: seq<T>)
    ensures Distinct(xs) && |xs| == |s| && forall x :: x in xs <==> x in s
    decreases |s|
  {
    if s == {} {
      xs := [];
    } else {
      var x :| x in s;
      xs := ListSet(s - {x});
      xs := xs + [x];
    }
  }

  /** Every finite set has subsets of all smaller sizes. */
  lemma {:induction false} TakeSome<T>(s: set<T>, n: nat) returns (part: set<T>)
    requires n <= |s|
    ensures part <= s && |part| == n
  {
    if n == 0 {
      part := {};
    } else {
      var x :| x in s;
      part := TakeSome(s - {x}, n - 1);
      part := part + {x};
    }
  }
}
