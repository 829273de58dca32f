/**
 The connection pool as the steps that its operations are made of: one access to the channel, one
 call of a connection's `Close`, or one change under a wrapper's mutex at a time, in any order.
 */
module PoolProtocol {
  import opened Options

  /** A connection by the number under which the factory made it. */
  type Conn = nat

  /** Where the operation that holds a wrapper's mutex is. */
  datatype Pc =
    | Free       // no operation
    | Closing    // about to close the connection, and then done
    | Putting    // about to offer the connection to the channel
    | Overflow   // the channel is full: about to close the connection, and then done
    | Rejected   // the channel is closed: about to close the connection and to fail
    | Finishing  // about to mark the wrapper as closed

  /** `served`: a call of `Close` or `Release` has returned. */
  datatype Wrapper = Wrapper(conn: Conn, unuse: bool, closed: bool, pc: Pc, served: bool)

  datatype State = State(
    cap: nat,
    chan: seq<Conn>,          // the channel's buffer
    shut: bool,               // the channel is closed
    draining: bool,           // the pool's `Close` is emptying the channel
    held: Option<Conn>,       // what it has taken out and not closed yet
    made: nat,                // how many connections the factory has made
    flights: set<Conn>,       // received or made, and not wrapped yet
    wrappers: seq<Wrapper>,
    closes: seq<nat>,         // how often each connection has been closed
    turned: seq<nat>)         // how often because the closed pool did not take it back

  datatype Action =
    | Receive | Make | Wrap(c: Conn)
    | StartClose(i: nat) | StartRelease(i: nat) | MarkUnuse(i: nat)
    | Offer(i: nat) | CloseConn(i: nat) | Finish(i: nat)
    | Shut | Drain | CloseHeld | EndDrain

  function Init(cap: nat): State { State(cap, [], false, false, None, 0, {}, [], [], []) }

  predicate IsIdle(s: State, i: nat) { i < |s.wrappers| && s.wrappers[i].pc == Free }

  predicate Enabled(s: State, a: Action) {
    match a
    case Receive => s.chan != []
    case Make => true
    case Wrap(c) => c in s.flights
    case StartClose(i) => IsIdle(s, i)
    case StartRelease(i) => IsIdle(s, i)
    case MarkUnuse(i) => IsIdle(s, i)
    case Offer(i) => i < |s.wrappers| && s.wrappers[i].pc == Putting
    case CloseConn(i) =>
      && i < |s.wrappers| && s.wrappers[i].pc in {Closing, Overflow, Rejected}
      && s.wrappers[i].conn < |s.closes| == |s.turned|
    case Finish(i) => i < |s.wrappers| && s.wrappers[i].pc == Finishing
    case Shut => !s.shut
    case Drain => s.draining && s.held == None && s.chan != []
    case CloseHeld => s.held.Some? && s.held.value < |s.closes|
    case EndDrain => s.draining && s.held == None && s.chan == []
  }

  function Set(s: State, i: nat, w: Wrapper): State
    requires i < |s.wrappers|
  {
    s.(wrappers := s.wrappers[i := w])
  }

  function More(counts: seq<nat>, c: Conn): seq<nat>
    requires c < |counts|
  {
    counts[c := counts[c] + 1]
  }

  function Step(s: State, a: Action): State
    requires Enabled(s, a)
  {
    match a
    case Receive => s.(chan := s.chan[1..], flights := s.flights + {s.chan[0]})
    case Make => s.(made := s.made + 1, flights := s.flights + {s.made}, closes := s.closes + [0],
      turned := s.turned + [0])
    case Wrap(c) => s.(flights := s.flights - {c}, wrappers := s.wrappers + [Wrapper(c, false, false, Free, false)])
    case StartClose(i) => Started(s, i, s.wrappers[i].unuse)
    case StartRelease(i) => Started(s, i, true)
    case MarkUnuse(i) => Set(s, i, s.wrappers[i].(unuse := true))
    case Offer(i) => Offered(s, i)
    case CloseConn(i) => ConnClosed(s, i)
    case Finish(i) => Set(s, i, s.wrappers[i].(closed := true, pc := Free, served := true))
    case Shut => s.(shut := true, draining := true)
    case Drain => s.(chan := s.chan[1..], held := Some(s.chan[0]))
    case CloseHeld => s.(held := None, closes := More(s.closes, s.held.value))
    case EndDrain => s.(draining := false)
  }

  /** `Close` or `Release` finds the wrapper closed, or has the connection closed, or offers it to the pool. */
  function Started(s: State, i: nat, direct: bool): State
    requires i < |s.wrappers|
  {
    var w := s.wrappers[i];
    Set(s, i, if w.closed then w.(served := true) else w.(pc := if direct then Closing else Putting))
  }

  /** Sending to a closed channel fails, to a full one it is not ready. */
  function Offered(s: State, i: nat): State
    requires i < |s.wrappers|
  {
    var w := s.wrappers[i];
    if s.shut then Set(s, i, w.(pc := Rejected))
    else if |s.chan| < s.cap then Set(s, i, w.(pc := Finishing)).(chan := s.chan + [w.conn])
    else Set(s, i, w.(pc := Overflow))
  }

  function ConnClosed(s: State, i: nat): State
    requires i < |s.wrappers| && s.wrappers[i].conn < |s.closes| == |s.turned|
  {
    var w := s.wrappers[i];
    var t := s.(closes := More(s.closes, w.conn));
    if w.pc == Rejected then Set(t, i, w.(pc := Free, served := true)).(turned := More(s.turned, w.conn))
    else Set(t, i, w.(pc := Finishing))
  }

  // ----- who has a connection

  datatype Owner = Channel | Getter | Drainer | Wrapped(i: nat) | Nobody

  /** The wrapper has neither handed its connection back nor closed it for good. */
  predicate Owns(w: Wrapper) { !w.closed && w.pc != Finishing }

  /** `who` names the one owner of every connection. */
  ghost predicate OwnedBy(s: State, who: seq<Owner>) {
    && |who| == s.made == |s.closes| == |s.turned|
    && (forall k :: 0 <= k < |s.chan| ==> s.chan[k] < s.made && who[s.chan[k]] == Channel)
    && (forall j, k :: 0 <= j < k < |s.chan| ==> s.chan[j] != s.chan[k])
    && (forall c :: c in s.flights ==> c < s.made && who[c] == Getter)
    && (s.held.Some? ==> s.held.value < s.made && who[s.held.value] == Drainer)
    && (forall i :: 0 <= i < |s.wrappers| ==>
      s.wrappers[i].conn < s.made && (Owns(s.wrappers[i]) ==> who[s.wrappers[i].conn] == Wrapped(i)))
    && forall c :: 0 <= c < s.made ==> IsOwner(s, who[c], c)
  }

  predicate IsOwner(s: State, o: Owner, c: Conn) {
    match o
    case Channel => c in s.chan
    case Getter => c in s.flights
    case Drainer => s.held == Some(c)
    case Wrapped(i) => i < |s.wrappers| && s.wrappers[i].conn == c && Owns(s.wrappers[i])
    case Nobody => true
  }

  /**
   A connection without an owner has been closed once for good, and any connection once for every time
   it was turned away.
   */
  ghost predicate Counted(s: State, who: seq<Owner>)
    requires |who| == |s.closes| == |s.turned|
  {
    forall c :: 0 <= c < |who| ==>
      && s.closes[c] == s.turned[c] + (if who[c] == Nobody then 1 else 0)
      && (s.turned[c] > 0 ==> s.shut && (who[c].Wrapped? || who[c] == Nobody))
  }

  ghost predicate Tidy(s: State) {
    && |s.chan| <= s.cap
    && (s.draining ==> s.shut) && (s.held.Some? ==> s.draining) && (s.shut && !s.draining ==> s.chan == [])
    && forall i {:trigger s.wrappers[i]} :: 0 <= i < |s.wrappers| ==> var w := s.wrappers[i];
         && (w.pc == Rejected ==> s.shut) && (w.closed ==> w.pc == Free)
         && (w.served && Owns(w) ==> w.conn < |s.turned| && s.turned[w.conn] > 0)
  }

  // ----- every step keeps the owners apart

  function NextOwner(s: State, a: Action, who: seq<Owner>): (r: seq<Owner>)
    requires Enabled(s, a) && |who| == s.made
    requires (forall k :: 0 <= k < |s.chan| ==> s.chan[k] < s.made) && (forall c :: c in s.flights ==> c < s.made)
    requires (s.held.Some? ==> s.held.value < s.made)
    requires forall i :: 0 <= i < |s.wrappers| ==> s.wrappers[i].conn < s.made
  {
    match a
    case Receive => who[s.chan[0] := Getter]
    case Make => who + [Getter]
    case Wrap(c) => who[c := Wrapped(|s.wrappers|)]
    case Offer(i) => if !s.shut && |s.chan| < s.cap then who[s.wrappers[i].conn := Channel] else who
    case CloseConn(i) => if s.wrappers[i].pc == Rejected then who else who[s.wrappers[i].conn := Nobody]
    case Drain => who[s.chan[0] := Drainer]
    case CloseHeld => who[s.held.value := Nobody]
    case _ => who
  }

  ghost predicate Good(s: State, who: seq<Owner>) { Tidy(s) && OwnedBy(s, who) && Counted(s, who) }

  lemma ReceiveKeeps(s: State, who: seq<Owner>)
    requires Good(s, who) && Enabled(s, Receive)
    ensures Good(Step(s, Receive), NextOwner(s, Receive, who))
  {
  }

  lemma MakeKeeps(s: State, who: seq<Owner>)
    requires Good(s, who) && Enabled(s, Make)
    ensures Good(Step(s, Make), NextOwner(s, Make, who))
  {
  }

  lemma WrapKeeps(s: State, c: Conn, who: seq<Owner>)
    requires Good(s, who) && Enabled(s, Wrap(c))
    ensures Good(Step(s, Wrap(c)), NextOwner(s, Wrap(c), who))
  {
    WrapTidies(s, c);
    WrapOwns(s, c, who);
  }

  lemma WrapTidies(s: State, c: Conn)
    requires Tidy(s) && Enabled(s, Wrap(c))
    ensures Tidy(Step(s, Wrap(c)))
  {
  }

  lemma WrapOwns(s: State, c: Conn, who: seq<Owner>)
    requires OwnedBy(s, who) && Enabled(s, Wrap(c))
    ensures OwnedBy(Step(s, Wrap(c)), NextOwner(s, Wrap(c), who))
  {
    var t, next, n := Step(s, Wrap(c)), NextOwner(s, Wrap(c), who), |s.wrappers|;
    assert t.wrappers[n].conn == c && Owns(t.wrappers[n]);
    forall i | 0 <= i < n
      ensures t.wrappers[i].conn < t.made && (Owns(t.wrappers[i]) ==> next[t.wrappers[i].conn] == Wrapped(i))
    {
      assert t.wrappers[i] == s.wrappers[i];
    }
    forall d | 0 <= d < t.made ensures IsOwner(t, next[d], d) {
      assert d != c ==> IsOwner(s, who[d], d);
    }
  }

  /** A change of a wrapper that neither takes its connection nor hands it back. */
  lemma SetKeeps(s: State, i: nat, w: Wrapper, who: seq<Owner>)
    requires Good(s, who) && i < |s.wrappers| && w.conn == s.wrappers[i].conn && Owns(w) == Owns(s.wrappers[i])
    requires (w.pc == Rejected ==> s.shut) && (w.closed ==> w.pc == Free)
    requires w.served && Owns(w) ==> s.wrappers[i].served
    ensures Good(Set(s, i, w), who)
  {
  }

  lemma {:induction false} TakenKeeps(s: State, i: nat, who: seq<Owner>)
    requires Good(s, who) && Enabled(s, Offer(i)) && !s.shut && |s.chan| < s.cap
    ensures Good(Offered(s, i), who[s.wrappers[i].conn := Channel])
  {
    var t := Offered(s, i);
    assert t.chan[|s.chan|] == s.wrappers[i].conn;
  }

  lemma TurnedKeeps(s: State, i: nat, who: seq<Owner>)
    requires Good(s, who) && Enabled(s, CloseConn(i)) && s.wrappers[i].pc == Rejected
    ensures Good(ConnClosed(s, i), who)
  {
  }

  lemma ClosedKeeps(s: State, i: nat, who: seq<Owner>)
    requires Good(s, who) && Enabled(s, CloseConn(i)) && s.wrappers[i].pc != Rejected
    ensures Good(ConnClosed(s, i), who[s.wrappers[i].conn := Nobody])
  {
  }

  lemma StartCloseKeeps(s: State, i: nat, who: seq<Owner>)
    requires Good(s, who) && Enabled(s, StartClose(i))
    ensures Good(Step(s, StartClose(i)), NextOwner(s, StartClose(i), who))
  {
    SetKeeps(s, i, Started(s, i, s.wrappers[i].unuse).wrappers[i], who);
  }

  lemma StartReleaseKeeps(s: State, i: nat, who: seq<Owner>)
    requires Good(s, who) && Enabled(s, StartRelease(i))
    ensures Good(Step(s, StartRelease(i)), NextOwner(s, StartRelease(i), who))
  {
    SetKeeps(s, i, Started(s, i, true).wrappers[i], who);
  }

  lemma UnuseKeeps(s: State, i: nat, who: seq<Owner>)
    requires Good(s, who) && Enabled(s, MarkUnuse(i))
    ensures Good(Step(s, MarkUnuse(i)), NextOwner(s, MarkUnuse(i), who))
  {
    SetKeeps(s, i, s.wrappers[i].(unuse := true), who);
  }

  lemma OfferKeeps(s: State, i: nat, who: seq<Owner>)
    requires Good(s, who) && Enabled(s, Offer(i))
    ensures Good(Step(s, Offer(i)), NextOwner(s, Offer(i), who))
  {
    var w := s.wrappers[i];
    if s.shut {
      SetKeeps(s, i, w.(pc := Rejected), who);
    } else if |s.chan| < s.cap {
      TakenKeeps(s, i, who);
    } else {
      SetKeeps(s, i, w.(pc := Overflow), who);
    }
  }

  lemma CloseConnKeeps(s: State, i: nat, who: seq<Owner>)
    requires Good(s, who) && Enabled(s, CloseConn(i))
    ensures Good(Step(s, CloseConn(i)), NextOwner(s, CloseConn(i), who))
  {
    if s.wrappers[i].pc == Rejected { TurnedKeeps(s, i, who); } else { ClosedKeeps(s, i, who); }
  }

  lemma FinishKeeps(s: State, i: nat, who: seq<Owner>)
    requires Good(s, who) && Enabled(s, Finish(i))
    ensures Good(Step(s, Finish(i)), NextOwner(s, Finish(i), who))
  {
    SetKeeps(s, i, s.wrappers[i].(closed := true, pc := Free, served := true), who);
  }

  lemma ShutKeeps(s: State, who: seq<Owner>)
    requires Good(s, who) && Enabled(s, Shut)
    ensures Good(Step(s, Shut), NextOwner(s, Shut, who))
  {
  }

  lemma DrainKeeps(s: State, who: seq<Owner>)
    requires Good(s, who) && Enabled(s, Drain)
    ensures Good(Step(s, Drain), NextOwner(s, Drain, who))
  {
  }

  lemma CloseHeldKeeps(s: State, who: seq<Owner>)
    requires Good(s, who) && Enabled(s, CloseHeld)
    ensures Good(Step(s, CloseHeld), NextOwner(s, CloseHeld, who))
  {
  }

  lemma EndDrainKeeps(s: State, who: seq<Owner>)
    requires Good(s, who) && Enabled(s, EndDrain)
    ensures Good(Step(s, EndDrain), NextOwner(s, EndDrain, who))
  {
  }

  lemma StepKeeps(s: State, a: Action, who: seq<Owner>)
    requires Good(s, who) && Enabled(s, a)
    ensures Good(Step(s, a), NextOwner(s, a, who))
  {
    match a
    case Receive => ReceiveKeeps(s, who);
    case Make => MakeKeeps(s, who);
    case Wrap(c) => WrapKeeps(s, c, who);
    case StartClose(i) => StartCloseKeeps(s, i, who);
    case StartRelease(i) => StartReleaseKeeps(s, i, who);
    case MarkUnuse(i) => UnuseKeeps(s, i, who);
    case Offer(i) => OfferKeeps(s, i, who);
    case CloseConn(i) => CloseConnKeeps(s, i, who);
    case Finish(i) => FinishKeeps(s, i, who);
    case Shut => ShutKeeps(s, who);
    case Drain => DrainKeeps(s, who);
    case CloseHeld => CloseHeldKeeps(s, who);
    case EndDrain => EndDrainKeeps(s, who);
  }

  // ----- runs

  predicate IsRun(s: State, acts: seq<Action>)
    decreases |acts|
  {
    acts == [] || (Enabled(s, acts[0]) && IsRun(Step(s, acts[0]), acts[1..]))
  }

  function End(s: State, acts: seq<Action>): State
    requires IsRun(s, acts)
    decreases |acts|
  {
    if acts == [] then s else End(Step(s, acts[0]), acts[1..])
  }

  lemma {:induction false} RunKeeps(s: State, acts: seq<Action>, who: seq<Owner>) returns (after: seq<Owner>)
    requires IsRun(s, acts) && Good(s, who)
    ensures Good(End(s, acts), after)
    decreases |acts|
  {
    after := who;
    if acts != [] {
      StepKeeps(s, acts[0], who);
      after := RunKeeps(Step(s, acts[0]), acts[1..], NextOwner(s, acts[0], who));
    }
  }

  lemma ReachedIsGood(cap: nat, acts: seq<Action>) returns (who: seq<Owner>)
    requires IsRun(Init(cap), acts)
    ensures Good(End(Init(cap), acts), who)
  {
    who := RunKeeps(Init(cap), acts, []);
  }

  /**
   Every connection ever made is in exactly one place (the channel, about to be wrapped, taken out
   by the pool's `Close`, or a wrapper that has not given it up), or in none: then it has been
   closed, once more than it was turned away.
   */
  lemma OnePlace(cap: nat, acts: seq<Action>, c: Conn)
    requires IsRun(Init(cap), acts) && c < End(Init(cap), acts).made
    ensures var s := End(Init(cap), acts);
      && |s.closes| == |s.turned| == s.made
      && (s.closes[c] == s.turned[c] <==> exists o :: o != Nobody && IsOwner(s, o, c))
      && (s.closes[c] == s.turned[c] + 1 <==> forall o :: o != Nobody ==> !IsOwner(s, o, c))
      && (forall o, p :: o != Nobody && p != Nobody && IsOwner(s, o, c) && IsOwner(s, p, c) ==> o == p)
  {
    var who := ReachedIsGood(cap, acts);
    var s := End(Init(cap), acts);
    forall o | o != Nobody && IsOwner(s, o, c) ensures o == who[c] {
    }
    assert IsOwner(s, who[c], c);
  }

  /** The channel never holds more than its capacity, nor any connection that has been closed, nor one twice. */
  lemma ChannelIsSound(cap: nat, acts: seq<Action>)
    requires IsRun(Init(cap), acts)
    ensures var s := End(Init(cap), acts);
      && |s.chan| <= cap == s.cap && |s.closes| == s.made
      && (forall k :: 0 <= k < |s.chan| ==> s.chan[k] < s.made && s.closes[s.chan[k]] == 0)
      && (forall j, k :: 0 <= j < k < |s.chan| ==> s.chan[j] != s.chan[k])
  {
    var who := ReachedIsGood(cap, acts);
    CapStays(Init(cap), acts);
  }

  lemma {:induction false} CapStays(s: State, acts: seq<Action>)
    requires IsRun(s, acts)
    ensures End(s, acts).cap == s.cap
    decreases |acts|
  {
    if acts != [] { CapStays(Step(s, acts[0]), acts[1..]); }
  }

  /** Whoever is about to get a connection gets one that nobody has closed, and that no other wrapper owns. */
  lemma GetterIsAlone(cap: nat, acts: seq<Action>, c: Conn)
    requires IsRun(Init(cap), acts) && c in End(Init(cap), acts).flights
    ensures var s := End(Init(cap), acts);
      && c < |s.closes| && s.closes[c] == 0 && c !in s.chan
      && forall i :: 0 <= i < |s.wrappers| && Owns(s.wrappers[i]) ==> s.wrappers[i].conn != c
  {
    var who := ReachedIsGood(cap, acts);
  }

  /** No two wrappers own the same connection, and none owns one that is in the channel. */
  lemma WrappersAreAlone(cap: nat, acts: seq<Action>, i: nat, j: nat)
    requires IsRun(Init(cap), acts)
    ensures var s := End(Init(cap), acts);
      i < |s.wrappers| && Owns(s.wrappers[i]) ==>
        && s.wrappers[i].conn !in s.chan
        && (i != j && j < |s.wrappers| && Owns(s.wrappers[j]) ==> s.wrappers[i].conn != s.wrappers[j].conn)
  {
    var who := ReachedIsGood(cap, acts);
    var s := End(Init(cap), acts);
    if i < |s.wrappers| && Owns(s.wrappers[i]) { assert who[s.wrappers[i].conn] == Wrapped(i); }
  }

  /** A connection is closed at most once, but for the times that the closed pool turned it away. */
  lemma ClosedOnce(cap: nat, acts: seq<Action>, c: Conn)
    requires IsRun(Init(cap), acts) && c < End(Init(cap), acts).made
    ensures var s := End(Init(cap), acts);
      && |s.closes| == |s.turned| == s.made
      && s.turned[c] <= s.closes[c] <= s.turned[c] + 1 && (s.turned[c] > 0 ==> s.shut)
  {
    var who := ReachedIsGood(cap, acts);
  }

  /** The pool is closed and drained, and of every wrapper `Close` or `Release` has returned, whatever it returned. */
  predicate IsOver(s: State) {
    s.shut && !s.draining && s.flights == {} && forall i :: 0 <= i < |s.wrappers| ==>
      s.wrappers[i].pc == Free && s.wrappers[i].served
  }

  /** Then every connection ever made has been closed. */
  lemma NothingLeaks(cap: nat, acts: seq<Action>, c: Conn)
    requires IsRun(Init(cap), acts) && IsOver(End(Init(cap), acts)) && c < End(Init(cap), acts).made
    ensures c < |End(Init(cap), acts).closes| && End(Init(cap), acts).closes[c] >= 1
  {
    var who := ReachedIsGood(cap, acts);
    var s := End(Init(cap), acts);
    assert IsOwner(s, who[c], c);
    if who[c].Wrapped? { assert s.wrappers[who[c].i].served; }
  }

  lemma {:induction false} RunOn(s: State, a: seq<Action>, b: seq<Action>)
    requires IsRun(s, a) && IsRun(End(s, a), b)
    ensures IsRun(s, a + b) && End(s, a + b) == End(End(s, a), b)
    decreases |a|
  {
    if a == [] {
      assert [] + b == b;
    } else {
      assert (a + b)[1..] == a[1..] + b;
      RunOn(Step(s, a[0]), a[1..], b);
    }
  }

  lemma Then(s: State, a: Action, acts: seq<Action>)
    requires Enabled(s, a) && IsRun(Step(s, a), acts)
    ensures IsRun(s, [a] + acts) && End(s, [a] + acts) == End(Step(s, a), acts)
  {
    assert ([a] + acts)[1..] == acts;
  }

  lemma {:induction false} Two(s: State, a: Action, b: Action)
    requires Enabled(s, a) && Enabled(Step(s, a), b)
    ensures IsRun(s, [a, b]) && End(s, [a, b]) == Step(Step(s, a), b)
  {
    var t := Step(s, a);
    Then(t, b, []);
    Then(s, a, [b]);
    assert [b] + [] == [b] && [a] + [b] == [a, b];
  }

  lemma {:induction false} Three(s: State, a: Action, b: Action, c: Action)
    requires Enabled(s, a) && Enabled(Step(s, a), b) && Enabled(Step(Step(s, a), b), c)
    ensures IsRun(s, [a, b, c]) && End(s, [a, b, c]) == Step(Step(Step(s, a), b), c)
  {
    Two(Step(s, a), b, c);
    Then(s, a, [b, c]);
    assert [a] + [b, c] == [a, b, c];
  }
}
