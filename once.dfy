/** A retry-until-success memo (once.go). The callback `f` is opaque, so a
    call of `Do` is given the error `f` would return if it were invoked,
    and reports whether it invoked `f`. */
module Onces {
  import opened Errors

  class Once {
    var done: nat   // the uint32 flag: 0 or 1

    ghost predicate Valid()
      reads this
    {
      done <= 1
    }

    constructor ()
      ensures Valid() && done == 0
    {
      done := 0;
    }

    /** `Do(f)`: returns nil without invoking `f` once `done` is 1;
        otherwise invokes `f`, returns its error, and sets `done` only when
        that error is nil. */
    method Do(f: Option<Error>) returns (err: Option<Error>, invoked: bool)
      requires Valid()
      modifies this
      ensures Valid()
      ensures old(done) == 1 ==> !invoked && err == None && done == 1
      ensures old(done) == 0 ==> invoked && err == f && done == (if f == None then 1 else 0)
    {
      if done == 1 {
        return None, false;
      }
      err := None;
      invoked := false;
      if done == 0 {
        err := f;
        invoked := true;
        if err == None {
          done := 1;
        }
      }
    }

    /** `Reset()`: the next `Do` invokes its callback again. */
    method Reset()
      requires Valid()
      modifies this
      ensures Valid() && done == 0
    {
      done := 0;
    }

    /** A run of `Do` calls, one per given callback result, counting the
        invocations of the callbacks. */
    method DoEach(fs: seq<Option<Error>>) returns (calls: nat)
      requires Valid()
      modifies this
      ensures Valid()
      ensures calls == Invocations(old(done) == 1, fs)
      ensures done == (if old(done) == 1 || None in fs then 1 else 0)
    {
      calls := 0;
      var i := 0;
      while i < |fs|
        invariant 0 <= i <= |fs| && Valid()
        invariant calls + Invocations(done == 1, fs[i..]) == Invocations(old(done) == 1, fs)
        invariant done == (if old(done) == 1 || None in fs[..i] then 1 else 0)
      {
        var err, invoked := Do(fs[i]);
        if invoked {
          calls := calls + 1;
        }
        assert fs[i..] == [fs[i]] + fs[i + 1..];
        assert fs[..i + 1] == fs[..i] + [fs[i]];
        i := i + 1;
      }
    }
  }

  /** How many of the callbacks `Do` invokes, given whether `done` is set:
      every one up to and including the first that succeeds. */
  function Invocations(done: bool, fs: seq<Option<Error>>): nat
    decreases |fs|
  {
    if done || fs == [] then 0
    else 1 + Invocations(fs[0] == None, fs[1..])
  }

  /** Once a callback has succeeded, no later callback is invoked; before
      that, every callback is: the count is the position of the first
      success plus one, or all of them when none succeeds. */
  lemma {:induction false} InvocationsUntilSuccess(fs: seq<Option<Error>>, k: nat)
    requires k < |fs| && fs[k] == None && forall j :: 0 <= j < k ==> fs[j] != None
    ensures Invocations(false, fs) == k + 1
  {
    if k > 0 {
      InvocationsUntilSuccess(fs[1..], k - 1);
    }
  }

  lemma {:induction false} InvocationsAllFail(fs: seq<Option<Error>>)
    requires forall j :: 0 <= j < |fs| ==> fs[j] != None
    ensures Invocations(false, fs) == |fs|
  {
    if fs != [] {
      InvocationsAllFail(fs[1..]);
    }
  }

  /** Three successful `Do` calls invoke the callback once; after `Reset`,
      three more invoke it once more. */
  method OnceReset() returns (first: nat, afterReset: nat)
    ensures first == 1 && afterReset == 2
  {
    var o := new Once();
    first := o.DoEach([None, None, None]);
    o.Reset();
    var more := o.DoEach([None, None, None]);
    afterReset := first + more;
  }

  /** Two failing calls followed by three succeeding ones invoke the
      callback three times. */
  method OnceError() returns (calls: nat)
    ensures calls == 3
  {
    var o := new Once();
    var e := Some(WorkError("try again"));
    var fs := [e, e, None, None, None];
    calls := o.DoEach(fs);
    InvocationsUntilSuccess(fs, 2);
  }
}
