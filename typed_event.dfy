/** `TypedEvent<T>`: a list of persistent listeners and a queue of listeners that fire once.
    Listeners are opaque: `emit` reports which listeners it invoked, in order, instead of running them. */
module TypedEvents {

  /** A registered callback. `Callback(id)` stands for an application function (equal ids are the
      same function object); `Forwarder(closure)` is a closure `pipe` created, compared by reference
      as `indexOf` compares functions. */
  datatype Listener<T> = Callback(id: nat) | Forwarder(closure: ForwardClosure<T>)

  /** The closure `(e) => te.emit(e)`: each `pipe` call allocates a new one. */
  class ForwardClosure<T> {
    const target: TypedEvent<T>

    constructor (target: TypedEvent<T>)
      ensures this.target == target
    {
      this.target := target;
    }
  }

  /** What `on` and `pipe` return: disposing it calls `off` with the same listener on the same event. */
  datatype Disposable<T> = Disposable(source: TypedEvent<T>, listener: Listener<T>)

  /** `Array.prototype.indexOf`: the first position holding `x`, or -1. */
  function IndexOf<X(==)>(s: seq<X>, x: X): (r: int)
    ensures -1 <= r < |s|
    ensures r == -1 <==> x !in s
    ensures 0 <= r ==> s[r] == x && x !in s[..r]
  {
    if |s| == 0 then -1
    else if s[0] == x then 0
    else
      var k := IndexOf(s[1..], x);
      assert s[1..][..if k < 0 then 0 else k] == s[1..if k < 0 then 1 else k + 1];
      if k == -1 then -1 else k + 1
  }

  /** What `off` leaves of a listener list: the first occurrence of `x` spliced out, if there is one. */
  function RemoveFirst<X(==)>(s: seq<X>, x: X): seq<X>
  {
    var i := IndexOf(s, x);
    if i > -1 then s[..i] + s[i + 1..] else s
  }

  /** Removing an absent listener changes nothing. */
  lemma RemoveFirstAbsent<X>(s: seq<X>, x: X)
    requires x !in s
    ensures RemoveFirst(s, x) == s
  {
  }

  /** Removing a present listener removes exactly one occurrence of it, keeps every other listener
      in its order, and keeps every occurrence before the first one. */
  lemma RemoveFirstPresent<X>(s: seq<X>, x: X)
    requires x in s
    ensures |RemoveFirst(s, x)| == |s| - 1
    ensures multiset(RemoveFirst(s, x)) == multiset(s) - multiset{x}
    ensures exists i :: 0 <= i < |s| && s[i] == x && x !in s[..i] && RemoveFirst(s, x) == s[..i] + s[i + 1..]
  {
    var i := IndexOf(s, x);
    assert s == s[..i] + [s[i]] + s[i + 1..];
    assert multiset(s) == multiset(s[..i]) + multiset{x} + multiset(s[i + 1..]);
  }

  /** Disposing what `on` returned undoes the registration when the listener was not already there. */
  lemma OnThenOffRestores<X>(s: seq<X>, x: X)
    requires x !in s
    ensures RemoveFirst(s + [x], x) == s
  {
    var i := IndexOf(s + [x], x);
    assert (s + [x])[..|s|] == s;
    assert i == |s|;
  }

  /** Disposing a registration whose listener occurs nowhere before it removes that registration,
      whatever was registered after it. */
  lemma RemoveFirstOwnRegistration<X>(s: seq<X>, x: X, t: seq<X>)
    requires x !in s
    ensures RemoveFirst(s + [x] + t, x) == s + t
  {
    var u := s + [x] + t;
    assert u[..|s|] == s && u[|s|] == x;
    assert u[|s| + 1..] == t;
  }

  /** Whatever the list held before, `on` followed by `off` of the same listener leaves the same
      listeners with the same multiplicities. */
  lemma OnThenOffSameMultiset<X>(s: seq<X>, x: X)
    ensures multiset(RemoveFirst(s + [x], x)) == multiset(s)
  {
    RemoveFirstPresent(s + [x], x);
    assert multiset(s + [x]) == multiset(s) + multiset{x};
  }

  class TypedEvent<T> {
    /** The persistent listeners, in registration order. */
    var listeners: seq<Listener<T>>
    /** The listeners registered with `once`, in registration order. */
    var listenersOncer: seq<Listener<T>>

    constructor ()
      ensures listeners == [] && listenersOncer == []
    {
      listeners := [];
      listenersOncer := [];
    }

    /** Appends `listener` to the persistent list. */
    method On(listener: Listener<T>) returns (d: Disposable<T>)
      modifies this
      ensures listeners == old(listeners) + [listener]
      ensures listenersOncer == old(listenersOncer)
      ensures d == Disposable(this, listener)
    {
      listeners := listeners + [listener];
      d := Disposable(this, listener);
    }

    /** Appends `listener` to the once-queue. */
    method Once(listener: Listener<T>)
      modifies this
      ensures listenersOncer == old(listenersOncer) + [listener]
      ensures listeners == old(listeners)
    {
      listenersOncer := listenersOncer + [listener];
    }

    /** Splices the first occurrence of `listener` out of the persistent list; the once-queue is untouched. */
    method Off(listener: Listener<T>)
      modifies this
      ensures listeners == RemoveFirst(old(listeners), listener)
      ensures listenersOncer == old(listenersOncer)
    {
      var callbackIndex := IndexOf(listeners, listener);
      if callbackIndex > -1 {
        listeners := listeners[..callbackIndex] + listeners[callbackIndex + 1..];
      }
    }

    /** Invokes every persistent listener and then every once-listener, each with `event`, and empties
        the once-queue. `invoked` lists the listeners called, in call order. */
    method Emit(event: T) returns (invoked: seq<Listener<T>>)
      modifies this
      ensures invoked == old(listeners) + old(listenersOncer)
      ensures listeners == old(listeners)
      ensures listenersOncer == []
    {
      invoked := [];
      for i := 0 to |listeners|
        invariant invoked == listeners[..i]
      {
        invoked := invoked + [listeners[i]];
      }
      for i := 0 to |listenersOncer|
        invariant invoked == listeners + listenersOncer[..i]
      {
        invoked := invoked + [listenersOncer[i]];
      }
      listenersOncer := [];
    }

    /** Registers one persistent listener that re-emits every event on `te`: a new closure, so it is
        distinct from every listener already registered and disposing it removes this registration. */
    method Pipe(te: TypedEvent<T>) returns (d: Disposable<T>)
      modifies this
      ensures d.source == this && d.listener.Forwarder? && fresh(d.listener.closure) && d.listener.closure.target == te
      ensures d.listener !in old(listeners)
      ensures listeners == old(listeners) + [d.listener]
      ensures listenersOncer == old(listenersOncer)
    {
      var closure := new ForwardClosure(te);
      d := On(Forwarder(closure));
    }
  }

  /** `disposable.dispose()`: calls `off` on the event the disposable came from. */
  method Dispose<T>(d: Disposable<T>)
    modifies d.source
    ensures d.source.listeners == RemoveFirst(old(d.source.listeners), d.listener)
    ensures d.source.listenersOncer == old(d.source.listenersOncer)
  {
    d.source.Off(d.listener);
  }

  /** Two pipes to the same target with a callback between them: disposing the second pipe removes
      the second forwarder, so the first forwarder still runs before the callback. */
  method PipeTwiceDisposeSecond<T>(e: TypedEvent<T>, target: TypedEvent<T>) returns (first: Disposable<T>, second: Disposable<T>)
    requires e.listeners == []
    modifies e
    ensures first.listener != second.listener
    ensures e.listeners == [first.listener, Callback(5)]
  {
    first := e.Pipe(target);
    var _ := e.On(Callback(5));
    second := e.Pipe(target);
    RemoveFirstOwnRegistration([first.listener, Callback(5)], second.listener, []);
    assert [first.listener, Callback(5)] + [second.listener] + [] == e.listeners;
    Dispose(second);
  }
}
