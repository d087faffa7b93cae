/**
 The DRAMsim3 MemorySystem as the wrapper sees it: an opaque component that says
 whether it will accept a transaction, takes transactions, and is clocked. Its
 internal state is abstracted to the history of what it was asked to do; its
 acceptance policy is an arbitrary function of that history.
 */
module TimingModel {
  import opened Packets

  /** What the wrapper did to the timing model: a submitted transaction or a clock tick. */
  datatype Event = Submit(address: uint64, isWrite: bool) | Tick

  /** `WillAcceptTransaction` as a function of everything the model has been given so far. */
  type Policy = (seq<Event>, uint64, bool) -> bool

  /** The transactions submitted so far, in submission order (see SubmittedAppend). */
  function Submitted(history: seq<Event>): (r: seq<Event>)
    ensures |r| <= |history|
    ensures forall k :: 0 <= k < |r| ==> r[k].Submit?
    ensures forall e :: e in r <==> e in history && e.Submit?
  {
    if history == [] then []
    else if history[|history| - 1].Submit? then Submitted(history[..|history| - 1]) + [history[|history| - 1]]
    else Submitted(history[..|history| - 1])
  }

  /** Submitted keeps every submission with its multiplicity and drops only ticks. */
  lemma {:induction false} SubmittedCounts(history: seq<Event>)
    ensures forall e :: multiset(Submitted(history))[e] == if e.Submit? then multiset(history)[e] else 0
  {
    if history != [] {
      var h := history[..|history| - 1];
      var last := history[|history| - 1];
      assert history == h + [last];
      SubmittedCounts(h);
    }
  }

  /** Filtering distributes over concatenation, so Submitted keeps the history's order. */
  lemma {:induction false} SubmittedAppend(a: seq<Event>, b: seq<Event>)
    ensures Submitted(a + b) == Submitted(a) + Submitted(b)
    decreases |b|
  {
    if b == [] {
      assert a + b == a;
    } else {
      var b' := b[..|b| - 1];
      var last := b[|b| - 1];
      assert b == b' + [last];
      assert (a + b)[..|a + b| - 1] == a + b';
      assert (a + b)[|a + b| - 1] == last;
      SubmittedAppend(a, b');
    }
  }

  class MemorySystem {
    const policy: Policy
    var history: seq<Event>

    constructor (policy: Policy)
      ensures this.policy == policy && history == []
    {
      this.policy := policy;
      history := [];
    }

    /** DRAMsim3's answer depends on nothing but what it has been given so far. */
    predicate WillAcceptTransaction(address: uint64, isWrite: bool): (r: bool)
      reads this
      ensures r == policy(history, address, isWrite)
    {
      policy(history, address, isWrite)
    }

    method AddTransaction(address: uint64, isWrite: bool)
      modifies this
      ensures history == old(history) + [Submit(address, isWrite)]
    {
      history := history + [Submit(address, isWrite)];
    }

    method ClockTick()
      modifies this
      ensures history == old(history) + [Tick]
    {
      history := history + [Tick];
    }
  }
}
