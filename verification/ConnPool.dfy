/**
 The connection pool and its wrappers as objects: each operation, left undisturbed, is a run of
 the protocol's steps.
 */
module ConnPool {
  import opened Options
  import opened PoolProtocol

  datatype Result = Ok | Err(error: Error)

  datatype Error = ErrClosed | ErrXConnClosed

  /** A wrapper around a connection of the pool. */
  class XConn {
    const conn: Conn
    const pool: XConnPool
    var unuse: bool
    var closed: bool
    ghost const index: nat
    ghost var served: bool

    constructor (conn: Conn, pool: XConnPool, ghost index: nat)
      ensures this.conn == conn && this.pool == pool && this.index == index && !unuse && !closed && !served
    {
      this.conn, this.pool, this.index := conn, pool, index;
      unuse, closed, served := false, false, false;
    }

    /** The wrapper between two operations. */
    ghost function View(): Wrapper
      reads this
    {
      Wrapper(conn, unuse, closed, Free, served)
    }

    /** The wrapper is the one that the pool knows under its index. */
    ghost predicate Known()
      reads pool
    {
      index < |pool.wrappers| && pool.wrappers[index] == this
    }

    method Close() returns (r: Result)
      requires pool.Valid() && Known()
      modifies this, pool
      ensures pool.Valid() && pool.wrappers == old(pool.wrappers)
      ensures pool.Now() == Closed(old(pool.Now()), index)
      ensures r ==
        if old(closed) then Err(ErrXConnClosed) else if !old(unuse) && old(pool.shut) then Err(ErrClosed) else Ok
      ensures pool.shut == old(pool.shut) && pool.made == old(pool.made) && unuse == old(unuse)
      ensures closed <==> old(closed) || old(unuse) || !old(pool.shut)
      ensures !old(closed) && !old(unuse) && !old(pool.shut) && |old(pool.conns)| < pool.cap ==>
        pool.conns == old(pool.conns) + [conn] && pool.closes == old(pool.closes) && pool.turned == old(pool.turned)
      ensures !old(closed) && (old(unuse) || old(pool.shut) || |old(pool.conns)| >= pool.cap) ==>
        pool.conns == old(pool.conns) && OneMore(old(pool.closes), pool.closes, conn)
      ensures !old(closed) && !old(unuse) && old(pool.shut) ==> OneMore(old(pool.turned), pool.turned, conn)
      ensures old(unuse) || !old(pool.shut) ==> pool.turned == old(pool.turned)
      ensures old(closed) ==>
        pool.conns == old(pool.conns) && pool.closes == old(pool.closes) && pool.turned == old(pool.turned)
    {
      ghost var before := Views(pool.wrappers);
      r := Ok;
      if closed {
        r := Err(ErrXConnClosed);
      } else {
        if unuse {
          pool.CloseUnderlying(conn, false);
        } else {
          r := pool.Put(conn);
        }
        if r.Ok? { closed := true; }
      }
      served := true;
      OneChanged(pool.wrappers, index, before);
    }

    method Release() returns (r: Result)
      requires pool.Valid() && Known()
      modifies this, pool
      ensures pool.Valid() && pool.wrappers == old(pool.wrappers)
      ensures pool.Now() == Released(old(pool.Now()), index)
      ensures r == if old(closed) then Err(ErrXConnClosed) else Ok
      ensures pool.shut == old(pool.shut) && pool.made == old(pool.made) && unuse == old(unuse) && closed
      ensures pool.conns == old(pool.conns) && pool.turned == old(pool.turned)
      ensures if old(closed) then pool.closes == old(pool.closes) else OneMore(old(pool.closes), pool.closes, conn)
    {
      ghost var before := Views(pool.wrappers);
      r := Ok;
      if closed {
        r := Err(ErrXConnClosed);
      } else {
        pool.CloseUnderlying(conn, false);
        closed := true;
      }
      served := true;
      OneChanged(pool.wrappers, index, before);
    }

    method Unuse()
      requires pool.Valid() && Known()
      modifies this`unuse
      ensures pool.Valid() && Enabled(old(pool.Now()), MarkUnuse(index))
      ensures pool.Now() == Step(old(pool.Now()), MarkUnuse(index))
      ensures unuse
    {
      unuse := true;
    }
  }

  class XConnPool {
    const cap: nat
    var conns: seq<Conn>
    var shut: bool
    var made: nat                    // the factory's count
    ghost var wrappers: seq<XConn>
    ghost var closes: seq<nat>
    ghost var turned: seq<nat>

    constructor (cap: nat)
      ensures Valid() && Now() == Init(cap)
    {
      this.cap := cap;
      conns, shut, made, wrappers, closes, turned := [], false, 0, [], [], [];
    }

    ghost predicate Valid()
      reads this
    {
      && |closes| == |turned| == made
      && forall i :: 0 <= i < |wrappers| ==>
        wrappers[i].index == i && wrappers[i].pool == this && wrappers[i].conn < made
    }

    /** The state between two operations, none of which is under way. */
    ghost function Now(): State
      reads this, wrappers
    {
      State(cap, conns, shut, false, None, made, {}, Views(wrappers), closes, turned)
    }

    /** The connection's own `Close`. */
    ghost method CloseUnderlying(c: Conn, away: bool)
      requires Valid() && c < made
      modifies this`closes, this`turned
      ensures Valid() && closes == More(old(closes), c) && turned == if away then More(old(turned), c) else old(turned)
    {
      closes := More(closes, c);
      if away { turned := More(turned, c); }
    }

    method Put(c: Conn) returns (r: Result)
      requires Valid() && c < made
      modifies this`conns, this`closes, this`turned
      ensures Valid() && (r == if shut then Err(ErrClosed) else Ok)
      ensures conns == if !shut && |old(conns)| < cap then old(conns) + [c] else old(conns)
      ensures closes == if shut || |old(conns)| >= cap then More(old(closes), c) else old(closes)
      ensures turned == if shut then More(old(turned), c) else old(turned)
    {
      if shut {
        CloseUnderlying(c, true);
        return Err(ErrClosed);
      }
      if |conns| < cap {
        conns := conns + [c];
      } else {
        CloseUnderlying(c, false);
      }
      r := Ok;
    }

    /** A connection from the channel, or a new one if there is none; `answers` says whether the factory has one. */
    method Get(answers: bool) returns (xc: XConn?)
      requires Valid() && forall k :: 0 <= k < |conns| ==> conns[k] < made
      modifies this
      ensures Valid() && Now() == Got(old(Now()), answers)
      ensures xc == null <==> old(conns) == [] && (old(shut) || !answers)
      ensures xc != null ==> fresh(xc) && wrappers == old(wrappers) + [xc]
      ensures xc != null ==> xc.pool == this && !xc.closed && !xc.unuse
      ensures shut == old(shut) && made >= old(made) && closes[..old(made)] == old(closes)
      ensures old(conns) != [] ==> xc != null && xc.conn == old(conns)[0] && conns == old(conns)[1..]
      ensures old(conns) != [] || xc == null ==> made == old(made)
      ensures old(conns) == [] && xc != null ==> xc.conn == old(made) && made == old(made) + 1
      ensures old(conns) == [] ==> conns == []
      ensures xc == null ==> wrappers == old(wrappers)
    {
      if conns != [] {
        var c := conns[0];
        conns := conns[1..];
        xc := WrapConn(c);
      } else if shut {
        xc := null;
      } else {
        xc := RawGet(answers);
      }
    }

    method WrapConn(c: Conn) returns (xc: XConn)
      requires Valid() && c < made
      modifies this`wrappers
      ensures Valid() && fresh(xc) && wrappers == old(wrappers) + [xc] && Now() == WithWrapper(old(Now()), c)
      ensures xc.conn == c && xc.pool == this && !xc.closed && !xc.unuse
    {
      xc := new XConn(c, this, |wrappers|);
      wrappers := wrappers + [xc];
    }

    /** A new connection, whatever is in the channel. */
    method RawGet(answers: bool) returns (xc: XConn?)
      requires Valid()
      modifies this
      ensures Valid() && (xc == null <==> !answers) && Now() == if answers then WithNew(old(Now())) else old(Now())
      ensures xc != null ==> fresh(xc) && wrappers == old(wrappers) + [xc]
      ensures xc != null ==> xc.pool == this && !xc.closed && !xc.unuse
      ensures shut == old(shut) && conns == old(conns) && closes[..old(made)] == old(closes)
      ensures xc == null ==> made == old(made) && wrappers == old(wrappers)
      ensures xc != null ==> xc.conn == old(made) && made == old(made) + 1
    {
      if !answers { return null; }
      closes, turned, made := closes + [0], turned + [0], made + 1;
      xc := WrapConn(made - 1);
    }

    /** Closes the channel, and the connections in it. */
    method Close() returns (r: Result)
      requires Valid() && forall k :: 0 <= k < |conns| ==> conns[k] < made
      modifies this
      ensures Valid() && wrappers == old(wrappers)
      ensures Now() == Emptied(old(Now()))
      ensures r == if old(shut) then Err(ErrClosed) else Ok
      ensures shut && made == old(made) && turned == old(turned) && (old(shut) ==> conns == old(conns))
      ensures !old(shut) ==> conns == []
      ensures forall c: Conn :: c < made ==>
        closes[c] == old(closes)[c] + if old(shut) then 0 else multiset(old(conns))[c]
    {
      MoreAllCounts(closes, conns);
      if shut { return Err(ErrClosed); }
      shut := true;
      ghost var all := conns;
      while conns != []
        invariant Valid() && shut && wrappers == old(wrappers) && made == old(made) && turned == old(turned)
        invariant forall k :: 0 <= k < |conns| ==> conns[k] < made
        invariant MoreAll(closes, conns) == MoreAll(old(closes), all)
        decreases |conns|
      {
        var c := conns[0];
        conns := conns[1..];
        CloseUnderlying(c, false);
      }
      r := Ok;
    }
  }

  /** The connection has been closed, or turned away, once more, and no other one has. */
  ghost predicate OneMore(before: seq<nat>, after: seq<nat>, c: Conn) {
    && |after| == |before| && c < |before| && after[c] == before[c] + 1
    && forall d :: 0 <= d < |before| && d != c ==> after[d] == before[d]
  }

  ghost function Views(ws: seq<XConn>): (r: seq<Wrapper>)
    reads ws
    ensures |r| == |ws| && forall k :: 0 <= k < |ws| ==> r[k] == ws[k].View()
  {
    seq(|ws|, k requires 0 <= k < |ws| reads ws => ws[k].View())
  }

  lemma OneChanged(ws: seq<XConn>, i: nat, before: seq<Wrapper>)
    requires i < |ws| == |before| && forall k :: 0 <= k < |ws| && k != i ==> ws[k].View() == before[k]
    ensures Views(ws) == before[i := ws[i].View()]
  {
  }

  // ----- the steps of an undisturbed operation

  /** What `Close` does, by the state it finds. */
  function CloseRun(s: State, i: nat): seq<Action>
    requires i < |s.wrappers|
  {
    if s.wrappers[i].closed then [StartClose(i)]
    else if s.wrappers[i].unuse then [StartClose(i), CloseConn(i), Finish(i)]
    else if s.shut then [StartClose(i), Offer(i), CloseConn(i)]
    else if |s.chan| < s.cap then [StartClose(i), Offer(i), Finish(i)]
    else [StartClose(i), Offer(i), CloseConn(i), Finish(i)]
  }

  /** The state that `Close` leaves behind. */
  function Closed(s: State, i: nat): State
    requires i < |s.wrappers| && s.wrappers[i].conn < |s.closes| == |s.turned|
  {
    var w := s.wrappers[i];
    var c := w.conn;
    if w.closed then Set(s, i, w.(served := true))
    else
      var done := Set(s, i, w.(closed := true, served := true));
      if w.unuse then done.(closes := More(s.closes, c))
      else if s.shut then Set(s, i, w.(served := true)).(closes := More(s.closes, c), turned := More(s.turned, c))
      else if |s.chan| < s.cap then done.(chan := s.chan + [c])
      else done.(closes := More(s.closes, c))
  }

  lemma CloseRunEnds(s: State, i: nat)
    requires IsIdle(s, i) && s.wrappers[i].conn < |s.closes| == |s.turned|
    ensures IsRun(s, CloseRun(s, i)) && End(s, CloseRun(s, i)) == Closed(s, i)
  {
    var w := s.wrappers[i];
    if w.closed {
      ClosedBefore(s, i);
    } else if w.unuse {
      Discarded(s, i);
    } else if s.shut {
      TurnedAway(s, i);
    } else if |s.chan| < s.cap {
      TakenBack(s, i);
    } else {
      PutOnFull(s, i);
    }
  }

  lemma ClosedBefore(s: State, i: nat)
    requires IsIdle(s, i) && s.wrappers[i].conn < |s.closes| == |s.turned| && s.wrappers[i].closed
    ensures IsRun(s, CloseRun(s, i)) && End(s, CloseRun(s, i)) == Closed(s, i)
  {
    Then(s, StartClose(i), []);
    assert [StartClose(i)] + [] == [StartClose(i)];
  }

  lemma Discarded(s: State, i: nat)
    requires IsIdle(s, i) && s.wrappers[i].conn < |s.closes| == |s.turned| && !s.wrappers[i].closed
    requires s.wrappers[i].unuse
    ensures IsRun(s, CloseRun(s, i)) && End(s, CloseRun(s, i)) == Closed(s, i)
  {
    Three(s, StartClose(i), CloseConn(i), Finish(i));
  }

  lemma TurnedAway(s: State, i: nat)
    requires IsIdle(s, i) && s.wrappers[i].conn < |s.closes| == |s.turned| && !s.wrappers[i].closed
    requires !s.wrappers[i].unuse && s.shut
    ensures IsRun(s, CloseRun(s, i)) && End(s, CloseRun(s, i)) == Closed(s, i)
  {
    var w := s.wrappers[i];
    SetTwice(s, i, w.(pc := Putting), w.(pc := Rejected));
    SetTwice(s, i, w.(pc := Rejected), w.(served := true));
    Three(s, StartClose(i), Offer(i), CloseConn(i));
  }

  lemma SetTwice(s: State, i: nat, v: Wrapper, w: Wrapper)
    requires i < |s.wrappers|
    ensures Set(Set(s, i, v), i, w) == Set(s, i, w)
  {
    assert s.wrappers[i := v][i := w] == s.wrappers[i := w];
  }

  lemma TakenBack(s: State, i: nat)
    requires IsIdle(s, i) && s.wrappers[i].conn < |s.closes| == |s.turned| && !s.wrappers[i].closed
    requires !s.wrappers[i].unuse
    requires !s.shut && |s.chan| < s.cap
    ensures IsRun(s, CloseRun(s, i)) && End(s, CloseRun(s, i)) == Closed(s, i)
  {
    Three(s, StartClose(i), Offer(i), Finish(i));
  }

  lemma PutOnFull(s: State, i: nat)
    requires IsIdle(s, i) && s.wrappers[i].conn < |s.closes| == |s.turned| && !s.wrappers[i].closed
    requires !s.wrappers[i].unuse
    requires !s.shut && |s.chan| >= s.cap
    ensures IsRun(s, CloseRun(s, i)) && End(s, CloseRun(s, i)) == Closed(s, i)
  {
    Three(Step(s, StartClose(i)), Offer(i), CloseConn(i), Finish(i));
    Then(s, StartClose(i), [Offer(i), CloseConn(i), Finish(i)]);
    assert [StartClose(i)] + [Offer(i), CloseConn(i), Finish(i)] == CloseRun(s, i);
  }

  /** What `Release` does. */
  function ReleaseRun(s: State, i: nat): seq<Action>
    requires i < |s.wrappers|
  {
    if s.wrappers[i].closed then [StartRelease(i)] else [StartRelease(i), CloseConn(i), Finish(i)]
  }

  function Released(s: State, i: nat): State
    requires i < |s.wrappers| && s.wrappers[i].conn < |s.closes| == |s.turned|
  {
    var w := s.wrappers[i];
    if w.closed then Set(s, i, w.(served := true))
    else Set(s, i, w.(closed := true, served := true)).(closes := More(s.closes, w.conn))
  }

  lemma ReleaseRunEnds(s: State, i: nat)
    requires IsIdle(s, i) && s.wrappers[i].conn < |s.closes| == |s.turned|
    ensures IsRun(s, ReleaseRun(s, i)) && End(s, ReleaseRun(s, i)) == Released(s, i)
  {
    if s.wrappers[i].closed {
      Then(s, StartRelease(i), []);
      assert [StartRelease(i)] + [] == [StartRelease(i)];
    } else {
      Three(s, StartRelease(i), CloseConn(i), Finish(i));
    }
  }

  /** What `Get` does; `answers` says whether the factory has a connection. */
  function GetRun(s: State, answers: bool): seq<Action> {
    if s.chan != [] then [Receive, Wrap(s.chan[0])]
    else if s.shut || !answers then []
    else [Make, Wrap(s.made)]
  }

  function Got(s: State, answers: bool): State {
    if s.chan != [] then WithWrapper(s.(chan := s.chan[1..]), s.chan[0])
    else if s.shut || !answers then s
    else WithNew(s)
  }

  function WithWrapper(s: State, c: Conn): State {
    s.(wrappers := s.wrappers + [Wrapper(c, false, false, Free, false)])
  }

  function WithNew(s: State): State {
    WithWrapper(s.(made := s.made + 1, closes := s.closes + [0], turned := s.turned + [0]), s.made)
  }

  lemma GetRunEnds(s: State, answers: bool)
    requires s.flights == {}
    ensures IsRun(s, GetRun(s, answers)) && End(s, GetRun(s, answers)) == Got(s, answers)
    ensures s.chan != [] ==> GetRun(s, answers) == [Receive, Wrap(s.chan[0])]
    ensures s.chan == [] && !s.shut && answers ==> GetRun(s, answers) == [Make, Wrap(s.made)]
    ensures s.chan == [] && (s.shut || !answers) ==> GetRun(s, answers) == []
  {
    if s.chan != [] {
      Two(s, Receive, Wrap(s.chan[0]));
    } else if !s.shut && answers {
      MakeRunEnds(s);
    }
  }

  lemma MakeRunEnds(s: State)
    requires s.flights == {}
    ensures IsRun(s, [Make, Wrap(s.made)]) && End(s, [Make, Wrap(s.made)]) == WithNew(s)
  {
    Two(s, Make, Wrap(s.made));
  }

  /** What the pool's `Close` does: it closes the channel, and then takes out and closes what is in it. */
  function DrainRun(n: nat): seq<Action> { if n == 0 then [EndDrain] else [Drain, CloseHeld] + DrainRun(n - 1) }

  function ShutRun(s: State): seq<Action> { if s.shut then [] else [Shut] + DrainRun(|s.chan|) }

  function MoreAll(counts: seq<nat>, cs: seq<Conn>): seq<nat>
    requires forall k :: 0 <= k < |cs| ==> cs[k] < |counts|
    decreases |cs|
  {
    if cs == [] then counts else MoreAll(More(counts, cs[0]), cs[1..])
  }

  lemma {:induction false} MoreAllCounts(counts: seq<nat>, cs: seq<Conn>)
    requires forall k :: 0 <= k < |cs| ==> cs[k] < |counts|
    ensures |MoreAll(counts, cs)| == |counts|
    ensures forall c: Conn :: c < |counts| ==> MoreAll(counts, cs)[c] == counts[c] + multiset(cs)[c]
    decreases |cs|
  {
    if cs != [] {
      MoreAllCounts(More(counts, cs[0]), cs[1..]);
      assert cs == [cs[0]] + cs[1..];
    }
  }

  function Emptied(s: State): State
    requires forall k :: 0 <= k < |s.chan| ==> s.chan[k] < |s.closes|
  {
    if s.shut then s else s.(shut := true, chan := [], closes := MoreAll(s.closes, s.chan))
  }

  lemma {:induction false} DrainRunEnds(s: State)
    requires s.draining && s.held == None && forall k :: 0 <= k < |s.chan| ==> s.chan[k] < |s.closes|
    ensures IsRun(s, DrainRun(|s.chan|))
    ensures End(s, DrainRun(|s.chan|)) == s.(chan := [], draining := false, closes := MoreAll(s.closes, s.chan))
    decreases |s.chan|
  {
    if s.chan == [] {
      Then(s, EndDrain, []);
      assert [EndDrain] + [] == [EndDrain];
    } else {
      Two(s, Drain, CloseHeld);
      var t := Step(Step(s, Drain), CloseHeld);
      assert t.chan == s.chan[1..];
      DrainRunEnds(t);
      RunOn(s, [Drain, CloseHeld], DrainRun(|t.chan|));
    }
  }

  lemma ShutRunEnds(s: State)
    requires !s.draining && s.held == None && (forall k :: 0 <= k < |s.chan| ==> s.chan[k] < |s.closes|)
    ensures IsRun(s, ShutRun(s)) && End(s, ShutRun(s)) == Emptied(s)
  {
    if !s.shut {
      DrainRunEnds(Step(s, Shut));
      Then(s, Shut, DrainRun(|s.chan|));
    }
  }
}
