// The two observer lists of src/events.h: `Event`, which calls every attached
// function, and `FilterChain`, which calls attached predicates in order until
// one of them reports that it handled the event.
//
// An attached `std::function` is an opaque value of type `H`; calling it is
// recorded as a `Call` in a log the operators return, in the order of the
// calls. What a filter returns is given by a `verdict` oracle on the filter
// and the arguments.

module Events {

  /** One invocation of an attached function with the event's arguments. */
  datatype Call<H, A> = Call(handler: H, args: A)

  /** The calls that firing an event with arguments `args` makes on `observers`. */
  function Deliveries<H, A>(observers: seq<H>, args: A): (r: seq<Call<H, A>>)
    ensures |r| == |observers|
  {
    if observers == [] then []
    else [Call(observers[0], args)] + Deliveries(observers[1..], args)
  }

  /** Each observer is called exactly once, with the same arguments, in attachment order. */
  lemma {:induction false} DeliveriesInOrder<H, A>(observers: seq<H>, args: A)
    ensures forall i :: 0 <= i < |observers| ==>
      Deliveries(observers, args)[i] == Call(observers[i], args)
  {
    if observers != [] {
      DeliveriesInOrder(observers[1..], args);
      forall i | 1 <= i < |observers|
        ensures Deliveries(observers, args)[i] == Call(observers[i], args)
      {
        assert Deliveries(observers, args)[i] == Deliveries(observers[1..], args)[i - 1];
      }
    }
  }

  /** An observer attached last is called last, after all the earlier ones. */
  lemma {:induction false} DeliveriesAttach<H, A>(observers: seq<H>, f: H, args: A)
    ensures Deliveries(observers + [f], args) == Deliveries(observers, args) + [Call(f, args)]
  {
    if observers == [] {
      assert [f][1..] == [];
    } else {
      assert (observers + [f])[1..] == observers[1..] + [f];
      DeliveriesAttach(observers[1..], f, args);
    }
  }

  /** `Event<ArgTypes...>`: a publish/subscribe list of functions. */
  class Event<H, A> {
    var observers: seq<H>

    /** A new event has no observers. */
    constructor ()
      ensures observers == []
    {
      observers := [];
    }

    /** `attach(f)`: adds `f` after every observer already attached. */
    method Attach(f: H)
      modifies this
      ensures observers == old(observers) + [f]
    {
      observers := observers + [f];
    }

    /**
     * `operator()(args...)`: calls every observer with `args`, in attachment
     * order. It is `const`: the observer list is left as it is.
     */
    method Fire(args: A) returns (log: seq<Call<H, A>>)
      ensures log == Deliveries(observers, args)
    {
      log := [];
      var k := 0;
      while k < |observers|
        invariant 0 <= k <= |observers|
        invariant log == Deliveries(observers[..k], args)
      {
        assert observers[..k + 1] == observers[..k] + [observers[k]];
        DeliveriesAttach(observers[..k], observers[k], args);
        log := log + [Call(observers[k], args)];
        k := k + 1;
      }
      assert observers[..k] == observers;
    }
  }

  /** What one run of a filter chain returns, and the calls it made. */
  datatype ChainRun<H, A> = ChainRun(handled: bool, called: seq<Call<H, A>>)

  /**
   * The filters are tried in order; the first that returns true ends the run
   * with `true`. When none does, every filter has been tried and the run
   * returns `false`.
   */
  function RunChain<H, A>(observers: seq<H>, args: A, verdict: (H, A) -> bool): (r: ChainRun<H, A>)
    ensures |r.called| <= |observers|
  {
    if observers == [] then ChainRun(false, [])
    else if verdict(observers[0], args) then ChainRun(true, [Call(observers[0], args)])
    else
      var tail := RunChain(observers[1..], args, verdict);
      ChainRun(tail.handled, [Call(observers[0], args)] + tail.called)
  }

  /** The chain reports the event handled if and only if some filter accepts it. */
  lemma {:induction false} RunChainHandledIff<H, A>(observers: seq<H>, args: A, verdict: (H, A) -> bool)
    ensures RunChain(observers, args, verdict).handled
      <==> exists i :: 0 <= i < |observers| && verdict(observers[i], args)
  {
    if observers != [] {
      RunChainHandledIff(observers[1..], args, verdict);
      if exists i :: 0 <= i < |observers| && verdict(observers[i], args) {
        var i :| 0 <= i < |observers| && verdict(observers[i], args);
        if i > 0 {
          assert verdict(observers[1..][i - 1], args);
        }
      }
      if exists i :: 0 <= i < |observers[1..]| && verdict(observers[1..][i], args) {
        var i :| 0 <= i < |observers[1..]| && verdict(observers[1..][i], args);
        assert verdict(observers[i + 1], args);
      }
    }
  }

  /**
   * When the filter at `j` is the first to accept, the run returns true
   * having called exactly the filters up to and including `j`, in order.
   */
  lemma {:induction false} RunChainStopsAtFirst<H, A>(observers: seq<H>, args: A,
      verdict: (H, A) -> bool, j: nat)
    requires j < |observers|
    requires forall i :: 0 <= i < j ==> !verdict(observers[i], args)
    requires verdict(observers[j], args)
    ensures RunChain(observers, args, verdict) == ChainRun(true, Deliveries(observers[..j + 1], args))
  {
    if j > 0 {
      var tail := observers[1..];
      assert !verdict(observers[0], args);
      assert forall i :: 0 <= i < j - 1 ==> !verdict(tail[i], args) by {
        forall i | 0 <= i < j - 1
          ensures !verdict(tail[i], args)
        {
          assert tail[i] == observers[i + 1];
        }
      }
      RunChainStopsAtFirst(tail, args, verdict, j - 1);
      assert observers[..j + 1][1..] == tail[..j];
    }
  }

  /**
   * When no filter accepts, the run returns false having called every
   * filter once, in order; on an empty chain it calls nothing.
   */
  lemma {:induction false} RunChainAllDecline<H, A>(observers: seq<H>, args: A, verdict: (H, A) -> bool)
    requires forall i :: 0 <= i < |observers| ==> !verdict(observers[i], args)
    ensures RunChain(observers, args, verdict) == ChainRun(false, Deliveries(observers, args))
  {
    if observers != [] {
      var tail := observers[1..];
      assert !verdict(observers[0], args);
      assert forall i :: 0 <= i < |tail| ==> !verdict(tail[i], args) by {
        forall i | 0 <= i < |tail|
          ensures !verdict(tail[i], args)
        {
          assert tail[i] == observers[i + 1];
        }
      }
      RunChainAllDecline(tail, args, verdict);
    }
  }

  /**
   * A filter attached last is reached only when every earlier filter
   * declines, and then decides the outcome.
   */
  lemma {:induction false} RunChainAttach<H, A>(observers: seq<H>, f: H, args: A, verdict: (H, A) -> bool)
    ensures var before := RunChain(observers, args, verdict);
      RunChain(observers + [f], args, verdict)
        == if before.handled then before
           else ChainRun(verdict(f, args), before.called + [Call(f, args)])
  {
    if observers == [] {
      assert [f][1..] == [];
    } else {
      assert (observers + [f])[1..] == observers[1..] + [f];
      RunChainAttach(observers[1..], f, args, verdict);
    }
  }

  /** `FilterChain<ArgTypes...>`: a list of filters tried in turn. */
  class FilterChain<H, A> {
    var observers: seq<H>

    /** A new chain has no filters. */
    constructor ()
      ensures observers == []
    {
      observers := [];
    }

    /** `attach(f)`: adds `f` after every filter already attached. */
    method Attach(f: H)
      modifies this
      ensures observers == old(observers) + [f]
    {
      observers := observers + [f];
    }

    /**
     * `operator()(args...)`: calls the filters in order and returns true as
     * soon as one returns true; returns false once all have declined. It is
     * `const`: the filter list is left as it is.
     */
    method Fire(args: A, verdict: (H, A) -> bool) returns (handled: bool, log: seq<Call<H, A>>)
      ensures ChainRun(handled, log) == RunChain(observers, args, verdict)
    {
      log := [];
      var k := 0;
      while k < |observers|
        invariant 0 <= k <= |observers|
        invariant forall i :: 0 <= i < k ==> !verdict(observers[i], args)
        invariant log == Deliveries(observers[..k], args)
      {
        DeliveriesAttach(observers[..k], observers[k], args);
        assert observers[..k + 1] == observers[..k] + [observers[k]];
        log := log + [Call(observers[k], args)];
        if verdict(observers[k], args) {
          RunChainStopsAtFirst(observers, args, verdict, k);
          return true, log;
        }
        k := k + 1;
      }
      assert observers[..k] == observers;
      RunChainAllDecline(observers, args, verdict);
      handled := false;
    }
  }
}
