/** The admission controller (token-bucket.go). The buffered channel of the
    source is a counter of free tokens bounded by the channel's capacity; a
    ghost history records every acquisition, refusal and release. */
module TokenBuckets {
  import opened Errors

  const LimitSize := 1000000

  datatype Event = Acquired | Refused | Released

  class TokenBucket {
    var tokens: nat
    const capacity: nat
    ghost var history: seq<Event>

    ghost predicate Valid()
      reads this
    {
      tokens <= capacity <= LimitSize
    }

    /** The channel of `size` slots, filled one token at a time. */
    constructor (size: nat)
      requires size <= LimitSize
      ensures Valid() && capacity == size && tokens == size && history == []
    {
      capacity := size;
      tokens := 0;
      history := [];
      new;
      var i := 0;
      while i < size
        invariant 0 <= i <= size && tokens == i
        invariant capacity == size && history == []
      {
        tokens := tokens + 1;
        i := i + 1;
      }
    }

    /** `Get(fastFail)`: a blocking Get waits for a token, so in this
        sequential model it may only be called while a token is free; a
        fast-fail Get takes a free token or reports `ErrNoBucket`. */
    method Get(fastFail: bool) returns (err: Option<Error>)
      requires Valid()
      requires !fastFail ==> tokens > 0
      modifies this`tokens, this`history
      ensures Valid()
      ensures old(tokens) > 0 ==> err == None && tokens == old(tokens) - 1 && history == old(history) + [Acquired]
      ensures old(tokens) == 0 ==> err == Some(ErrNoBucket) && tokens == 0 && history == old(history) + [Refused]
    {
      if tokens > 0 {
        tokens := tokens - 1;
        history := history + [Acquired];
        err := None;
      } else {
        history := history + [Refused];
        err := Some(ErrNoBucket);
      }
    }

    /** `Put()`: returns a token; a full channel would block the sender, so
        it may only be called while a token is out. */
    method Put()
      requires Valid() && tokens < capacity
      modifies this`tokens, this`history
      ensures Valid()
      ensures tokens == old(tokens) + 1 && history == old(history) + [Released]
    {
      tokens := tokens + 1;
      history := history + [Released];
    }

    /** `n` rounds of a successful Get followed by a Put keep the count in
        bounds and end where they started. */
    method GetPutRounds(fastFail: bool, n: nat)
      requires Valid() && tokens > 0
      modifies this`tokens, this`history
      ensures Valid() && tokens == old(tokens)
      ensures history == old(history) + Rounds(n)
    {
      var i := 0;
      while i < n
        invariant 0 <= i <= n
        invariant Valid() && tokens == old(tokens)
        invariant history == old(history) + Rounds(i)
      {
        var err := Get(fastFail);
        Put();
        i := i + 1;
      }
    }
  }

  /** The history of `n` acquire/release rounds. */
  function Rounds(n: nat): (h: seq<Event>)
    ensures |h| == 2 * n
  {
    if n == 0 then [] else Rounds(n - 1) + [Acquired, Released]
  }

  /** `NewTokenBucket(size)`: panics when `size` exceeds `LimitSize` (and, as
      Go's `make` does, when it is negative); otherwise a bucket holding
      `size` free tokens. */
  method NewTokenBucket(size: int) returns (r: Result<TokenBucket>)
    ensures size > LimitSize ==> r == Panic(ErrSizeTooLarge)
    ensures size < 0 ==> r == Panic(ErrNegativeSize)
    ensures 0 <= size <= LimitSize ==>
      (r.Ok? && fresh(r.value) && r.value.Valid() &&
       r.value.capacity == size && r.value.tokens == size && r.value.history == [])
  {
    if size > LimitSize {
      return Panic(ErrSizeTooLarge);
    }
    if size < 0 {
      return Panic(ErrNegativeSize);
    }
    var b := new TokenBucket(size);
    return Ok(b);
  }

  /** With capacity 0, every fast-fail Get reports `ErrNoBucket`. */
  method ZeroCapacityRefuses(n: nat) returns (errs: seq<Option<Error>>)
    ensures |errs| == n && forall i :: 0 <= i < n ==> errs[i] == Some(ErrNoBucket)
  {
    var b := new TokenBucket(0);
    errs := [];
    while |errs| < n
      invariant |errs| <= n && b.Valid() && b.capacity == 0
      invariant forall i :: 0 <= i < |errs| ==> errs[i] == Some(ErrNoBucket)
    {
      var err := b.Get(true);
      errs := errs + [err];
    }
  }
}
