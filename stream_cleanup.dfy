/**
 * The listener pair that releases the file stream once it is attached to the
 * response: `cleanup` waits for `finish` on the response, `destroy` waits for
 * `error` on the socket. `destroy` destroys the stream and then runs
 * `cleanup`, which removes both listeners, so whichever signal comes first
 * is the only one that has an effect.
 */
module StreamCleanup {

  /** The two signals: `finish` on the response, `error` on the socket. */
  datatype Event = Finish | SocketError

  /** Which listeners are registered, and how many times the stream was destroyed. */
  datatype Registrations = Registrations(onFinish: bool, onError: bool, destroyed: nat)

  /** Both listeners attached to a stream that is still open. */
  const Attached := Registrations(true, true, 0)

  /**
   * The states reachable from `Attached`: the two listeners are registered
   * together or not at all, and the stream is destroyed at most once and
   * only after its listeners are gone.
   */
  predicate Valid(r: Registrations)
  {
    r.onFinish == r.onError && r.destroyed <= 1 && (r.onFinish ==> r.destroyed == 0)
  }

  /**
   * One signal delivered: it runs its listener if that listener is still
   * registered and does nothing otherwise. A finish never destroys the
   * stream; an error destroys it at most once more.
   */
  function Step(r: Registrations, e: Event): (r': Registrations)
    ensures e == Finish ==> r'.destroyed == r.destroyed
    ensures r.destroyed <= r'.destroyed <= r.destroyed + 1
    ensures Valid(r) ==> Valid(r')
  {
    match e
    case Finish => if r.onFinish then r.(onFinish := false, onError := false) else r
    case SocketError =>
      if r.onError then Registrations(false, false, r.destroyed + 1) else r
  }

  /** Signals delivered one after another: each destroys the stream at most once more. */
  function Run(r: Registrations, events: seq<Event>): (r': Registrations)
    ensures r.destroyed <= r'.destroyed <= r.destroyed + |events|
    decreases |events|
  {
    if events == [] then r else Run(Step(r, events[0]), events[1..])
  }

  /** Once both listeners are removed, no signal changes anything. */
  lemma {:induction false} DetachedIgnores(r: Registrations, events: seq<Event>)
    requires !r.onFinish && !r.onError
    ensures Run(r, events) == r
    decreases |events|
  {
    if events != [] {
      DetachedIgnores(Step(r, events[0]), events[1..]);
    }
  }

  /**
   * Whatever the signals and their order, the stream is destroyed exactly
   * when the first signal is a socket error, and never more than once; after
   * the first signal no listener is left registered.
   */
  lemma {:induction false} ReleasedOnce(events: seq<Event>)
    ensures Run(Attached, events).destroyed == if events != [] && events[0] == SocketError then 1 else 0
    ensures events != [] ==> !Run(Attached, events).onFinish && !Run(Attached, events).onError
  {
    if events != [] {
      DetachedIgnores(Step(Attached, events[0]), events[1..]);
    }
  }

  /** Every state reached from `Attached` is `Valid`. */
  lemma {:induction false} RunValid(r: Registrations, events: seq<Event>)
    requires Valid(r)
    ensures Valid(Run(r, events))
    decreases |events|
  {
    if events != [] {
      RunValid(Step(r, events[0]), events[1..]);
    }
  }

  /** The listener registrations of one served request, updated in place as the signals arrive. */
  class Listeners {
    var onFinish: bool
    var onError: bool
    var destroyed: nat

    function State(): Registrations
      reads this
    {
      Registrations(onFinish, onError, destroyed)
    }

    /** Lines 89-90: `res.on('finish', cleanup)` and `socket.on('error', destroy)`. */
    constructor ()
      ensures State() == Attached
    {
      onFinish, onError, destroyed := true, true, 0;
    }

    /** `cleanup`: removes both listeners; the stream is left as it is. */
    method Cleanup()
      modifies this
      ensures State() == old(State()).(onFinish := false, onError := false)
    {
      onFinish := false;
      onError := false;
    }

    /** `destroy`: destroys the stream, then runs `cleanup`. */
    method Destroy()
      modifies this
      ensures State() == Registrations(false, false, old(destroyed) + 1)
    {
      destroyed := destroyed + 1;
      Cleanup();
    }

    /** Delivers one signal to whichever listener is registered for it. */
    method Emit(e: Event)
      modifies this
      ensures State() == Step(old(State()), e)
    {
      match e {
        case Finish =>
          if onFinish {
            Cleanup();
          }
        case SocketError =>
          if onError {
            Destroy();
          }
      }
    }

    /** Delivers the signals in order. */
    method EmitAll(events: seq<Event>)
      modifies this
      ensures State() == Run(old(State()), events)
    {
      var i := 0;
      while i < |events|
        invariant 0 <= i <= |events|
        invariant Run(State(), events[i..]) == Run(old(State()), events)
      {
        assert events[i..][1..] == events[i + 1..];
        Emit(events[i]);
        i := i + 1;
      }
    }
  }

  /**
   * A socket error followed by a late finish: the error destroys the stream
   * and the finish finds no listener, so the stream is destroyed once.
   */
  method ErrorThenFinish() returns (destroyed: nat)
    ensures destroyed == 1
  {
    var l := new Listeners();
    l.Emit(SocketError);
    l.Emit(Finish);
    destroyed := l.destroyed;
  }

  /**
   * A finish followed by a socket error on the closed connection: the finish
   * removes both listeners, so the stream is never destroyed.
   */
  method FinishThenError() returns (destroyed: nat)
    ensures destroyed == 0
  {
    var l := new Listeners();
    l.Emit(Finish);
    l.Emit(SocketError);
    destroyed := l.destroyed;
  }

  /** Any sequence of signals on a fresh request releases the stream at most once. */
  method Serve(events: seq<Event>) returns (destroyed: nat)
    ensures destroyed <= 1
    ensures destroyed == 1 <==> events != [] && events[0] == SocketError
  {
    var l := new Listeners();
    l.EmitAll(events);
    ReleasedOnce(events);
    destroyed := l.destroyed;
  }
}
