/** When a connection of evserver.c comes into the table and when it leaves it: over one
    event, over a sweep, and over every run of the loop. */
module ConnectionLives {
  import opened Bytes
  import opened ConnectionSpec
  import opened EventLoopSpec

  // ---------- one event ----------

  /** What a connection has been read, as an event asks. */
  function ReadPart(was: Slot, e: Event): (r: Read)
    requires was.Held? && was.conn.Valid() && e.Ready?
    ensures r.conn.Valid()
  {
    if e.readable then Readable(SERVER, was.conn, e.recvs) else Read(was.conn, [])
  }

  /** What it has then been made to write. */
  function WritePart(was: Slot, e: Event): (w: Write)
    requires was.Held? && was.conn.Valid() && e.Ready?
    ensures w.conn.Valid()
  {
    if e.writable then Writable(ReadPart(was, e).conn, e.sends) else Write(ReadPart(was, e).conn, [])
  }

  /** The event ends the connection: the peer has hung up, or it is closing and has
      delivered everything. */
  predicate Ended(was: Slot, e: Event)
    requires was.Held? && was.conn.Valid() && e.Ready?
  {
    e.hangup || (WritePart(was, e).conn.closing && WritePart(was, e).conn.Pending() == [])
  }

  /** The time of the last transfer, in either direction. */
  function ActiveAt(was: Slot, e: Event): int
    requires was.Held? && was.conn.Valid() && e.Ready?
  {
    if WritePart(was, e).delivered != [] then e.writeAt
    else if ReadPart(was, e).taken != [] then e.readAt
    else was.lastActive
  }

  /** A ready event frees the entry exactly if it ends the connection, and otherwise keeps
      it with exactly what the reads and writes made of it. */
  predicate Fate(was: Slot, e: Event, now: Slot)
    requires was.Held? && was.conn.Valid() && e.Ready?
  {
    if Ended(was, e) then now.Free?
    else now == Held(was.fd, WritePart(was, e).conn, was.received + ReadPart(was, e).taken,
                     was.delivered + WritePart(was, e).delivered, ActiveAt(was, e))
  }

  lemma HeldValid(s: State, fd: nat)
    requires Inv(s) && fd < MAX_FD && s.slots[fd].Held?
    ensures s.slots[fd].conn.Valid() && s.slots[fd].fd == fd
  {
    assert SlotOk(fd, s.slots[fd], s.interest);
  }

  lemma AttendIs(was: Slot, e: Event)
    requires was.Held? && was.conn.Valid() && e.Ready?
    ensures Attend(was, e) == Held(was.fd, WritePart(was, e).conn, was.received + ReadPart(was, e).taken,
                                   was.delivered + WritePart(was, e).delivered, ActiveAt(was, e))
  {
    assert was.received + [] == was.received && was.delivered + [] == was.delivered;
  }

  lemma DispatchFate(s: State, e: Event)
    requires Inv(s) && e.Ready? && e.fd < MAX_FD && s.slots[e.fd].Held?
    ensures s.slots[e.fd].conn.Valid() && Fate(s.slots[e.fd], e, Handle(s, e).slots[e.fd])
    ensures var t := Handle(s, e);
            && t.live == s.live - (if t.slots[e.fd].Free? then 1 else 0)
            && (t.slots[e.fd].Held? ==> e.fd in t.interest &&
                                        t.interest[e.fd] == (WritePart(s.slots[e.fd], e).conn.Pending() != []))
  {
    HeldValid(s, e.fd);
    AttendIs(s.slots[e.fd], e);
  }

  // ---------- accept ----------

  /** How many results accept gives before it fails. */
  function Tries(offers: seq<AcceptResult>): (n: nat)
    ensures n <= |offers|
  {
    if offers == [] || offers[0].AcceptFailed? then 0 else 1 + Tries(offers[1..])
  }

  /** Offer i is the admission of this fd: its set-up succeeds. */
  predicate Admits(offers: seq<AcceptResult>, i: nat, fd: nat)
    requires i < |offers|
  {
    offers[i].Offer? && offers[i].fd == fd && offers[i].nonblocking && offers[i].memory && offers[i].watched
  }

  /** The kernel's promise: an fd that is offered is below 65536 and not in use, in the
      table or by an earlier admission. */
  predicate Promised(s: State, offers: seq<AcceptResult>)
    requires |s.slots| == MAX_FD
  {
    && (forall i :: 0 <= i < |offers| && offers[i].Offer? ==> offers[i].fd < MAX_FD && s.slots[offers[i].fd].Free?)
    && (forall i: nat, j: nat :: i < j < |offers| && offers[j].Offer? ==> !Admits(offers, i, offers[j].fd))
  }

  /** A connection as it is admitted: the greeting is queued and nothing has happened. */
  predicate Fresh(slot: Slot, fd: nat, at: int) {
    slot == Held(fd, Conn([], Ascii("ready\n"), 0, 0, false), [], [], at)
  }

  lemma AdmitIs(s: State, o: AcceptResult)
    requires Inv(s) && o.Offer? && o.fd < MAX_FD
    ensures if Admits([o], 0, o.fd) then Fresh(Admit(s, o).slots[o.fd], o.fd, o.at) else Admit(s, o) == s
    ensures forall fd :: 0 <= fd < MAX_FD && fd != o.fd ==> Admit(s, o).slots[fd] == s.slots[fd]
  {
    GreetingQueued();
  }

  lemma GreetingQueued()
    ensures Accepted(SERVER) == Conn([], Ascii("ready\n"), 0, 0, false)
  {
    assert [] + Ascii("ready\n") == Ascii("ready\n");
  }

  lemma PromisedOn(s: State, offers: seq<AcceptResult>)
    requires Inv(s) && Promised(s, offers) && offers != [] && offers[0].Offer?
    ensures Promised(Admit(s, offers[0]), offers[1..])
  {
    AdmitIs(s, offers[0]);
    var rest, t := offers[1..], Admit(s, offers[0]);
    forall j: nat | j < |rest| && rest[j].Offer? ensures rest[j].fd < MAX_FD && t.slots[rest[j].fd].Free? {
      assert rest[j] == offers[j + 1] && !Admits(offers, 0, offers[j + 1].fd);
    }
    forall i: nat, j: nat | i < j < |rest| && rest[j].Offer? ensures !Admits(rest, i, rest[j].fd) {
      assert !Admits(offers, i + 1, offers[j + 1].fd);
    }
  }

  /** Every offer before accept fails is taken up: those whose set-up succeeds are in the
      table, greeted, and nothing else has changed. */
  lemma {:induction false} AcceptAdmits(s: State, offers: seq<AcceptResult>)
    requires Inv(s) && Promised(s, offers)
    ensures var t := AcceptNew(s, offers);
            && (forall i: nat :: i < Tries(offers) && offers[i].Offer? && Admits(offers, i, offers[i].fd) ==>
                  Fresh(t.slots[offers[i].fd], offers[i].fd, offers[i].at))
            && (forall fd: nat :: fd < MAX_FD && (forall i: nat :: i < Tries(offers) ==> !Admits(offers, i, fd)) ==>
                  t.slots[fd] == s.slots[fd])
    decreases |offers|
  {
    if offers != [] && !offers[0].AcceptFailed? {
      var rest := offers[1..];
      var next := if offers[0].Offer? then Admit(s, offers[0]) else s;
      if offers[0].Offer? {
        AdmitInv(s, offers[0]);
        AdmitIs(s, offers[0]);
        PromisedOn(s, offers);
      } else {
        PromisedPast(s, offers);
      }
      AcceptAdmits(next, rest);
      AdmittedFirst(s, offers, next, AcceptNew(s, offers));
    }
  }

  lemma PromisedPast(s: State, offers: seq<AcceptResult>)
    requires |s.slots| == MAX_FD && Promised(s, offers) && offers != []
    ensures !offers[0].Offer? ==> Promised(s, offers[1..])
  {
    var rest := offers[1..];
    forall i: nat, j: nat | i < j < |rest| && rest[j].Offer? ensures !Admits(rest, i, rest[j].fd) {
      assert !Admits(offers, i + 1, offers[j + 1].fd);
    }
  }

  lemma AdmittedFirst(s: State, offers: seq<AcceptResult>, next: State, t: State)
    requires |s.slots| == |next.slots| == |t.slots| == MAX_FD && Promised(s, offers)
    requires offers != [] && !offers[0].AcceptFailed?
    requires if offers[0].Offer? && Admits(offers, 0, offers[0].fd)
             then Fresh(next.slots[offers[0].fd], offers[0].fd, offers[0].at) else next == s
    requires forall fd :: 0 <= fd < MAX_FD && (offers[0].Offer? ==> fd != offers[0].fd) ==>
               next.slots[fd] == s.slots[fd]
    requires var rest := offers[1..];
             && (forall i: nat :: i < Tries(rest) && rest[i].Offer? && Admits(rest, i, rest[i].fd) ==>
                   Fresh(t.slots[rest[i].fd], rest[i].fd, rest[i].at))
             && (forall fd: nat :: fd < MAX_FD && (forall i: nat :: i < Tries(rest) ==> !Admits(rest, i, fd)) ==>
                   t.slots[fd] == next.slots[fd])
    ensures forall i: nat :: i < Tries(offers) && offers[i].Offer? && Admits(offers, i, offers[i].fd) ==>
              Fresh(t.slots[offers[i].fd], offers[i].fd, offers[i].at)
    ensures forall fd: nat :: fd < MAX_FD && (forall i: nat :: i < Tries(offers) ==> !Admits(offers, i, fd)) ==>
              t.slots[fd] == s.slots[fd]
  {
    var rest := offers[1..];
    forall i: nat | i < Tries(offers) && offers[i].Offer? && Admits(offers, i, offers[i].fd)
      ensures Fresh(t.slots[offers[i].fd], offers[i].fd, offers[i].at)
    {
      if i > 0 {
        assert rest[i - 1] == offers[i] && Admits(rest, i - 1, rest[i - 1].fd);
      } else {
        forall j: nat | j < Tries(rest) ensures !Admits(rest, j, offers[0].fd) {
          assert rest[j] == offers[j + 1];
        }
      }
    }
    forall fd: nat | fd < MAX_FD && (forall i: nat :: i < Tries(offers) ==> !Admits(offers, i, fd))
      ensures t.slots[fd] == s.slots[fd]
    {
      assert !Admits(offers, 0, fd);
      forall j: nat | j < Tries(rest) ensures !Admits(rest, j, fd) {
        assert !Admits(offers, j + 1, fd);
      }
    }
  }

  /** A connection that is held is not touched by accept. */
  lemma {:induction false} AcceptKeeps(s: State, offers: seq<AcceptResult>, fd: nat)
    requires Inv(s) && fd < MAX_FD && s.slots[fd].Held?
    ensures AcceptNew(s, offers).slots[fd] == s.slots[fd]
    decreases |offers|
  {
    if offers != [] && !offers[0].AcceptFailed? {
      if offers[0].AcceptInterrupted? {
        AcceptKeeps(s, offers[1..], fd);
      } else if offers[0].fd < MAX_FD && s.slots[offers[0].fd].Free? {
        AdmitInv(s, offers[0]);
        AcceptKeeps(Admit(s, offers[0]), offers[1..], fd);
      }
    }
  }

  // ---------- over every run ----------

  /** What changes the table in a run, with the table before it: an event or a sweep. */
  datatype Moment = Handled(before: State, e: Event) | Swept(before: State, now: int)

  ghost function AfterMoment(m: Moment): State
    requires Inv(m.before)
  {
    match m
    case Handled(before, e) => Handle(before, e)
    case Swept(before, now) => Sweep(before, MAX_FD, now)
  }

  ghost function EventMoments(s: State, events: seq<Event>): seq<Moment>
    requires Inv(s)
    decreases |events|
  {
    if events == [] then [] else [Handled(s, events[0])] + EventMoments(Handle(s, events[0]), events[1..])
  }

  /** The moments of one pass of the loop; it sweeps at every fifth second or later. */
  ghost function PassMoments(l: Loop, p: Poll): seq<Moment>
    requires Inv(l.state)
  {
    if !p.Batch? then []
    else EventMoments(l.state, p.events) +
         if p.tested - l.lastSweep >= 5 then [Swept(HandleAll(l.state, p.events), p.swept)] else []
  }

  ghost function Moments(l: Loop, polls: seq<Poll>): seq<Moment>
    requires Inv(l.state)
    decreases |polls|
  {
    if polls == [] || !l.running then [] else PassMoments(l, polls[0]) + Moments(Pass(l, polls[0]), polls[1..])
  }

  /** A reason to close a connection: it hangs up or has finished, or has been idle for
      more than thirty seconds at a sweep. */
  ghost predicate Departs(m: Moment, fd: nat)
    requires Inv(m.before) && fd < MAX_FD && m.before.slots[fd].Held?
  {
    HeldValid(m.before, fd);
    match m
    case Handled(before, e) => e.Ready? && e.fd == fd && Ended(before.slots[fd], e)
    case Swept(before, now) => now - before.slots[fd].lastActive > 30
  }

  /** At each moment exactly the connections that have a reason leave the table. */
  lemma MomentIs(m: Moment, fd: nat)
    requires Inv(m.before) && fd < MAX_FD && m.before.slots[fd].Held?
    ensures AfterMoment(m).slots[fd].Free? <==> Departs(m, fd)
  {
    match m
    case Handled(before, e) =>
      match e {
        case Listener(offers) => AcceptKeeps(before, offers, fd);
        case Wake =>
        case Ready(_, _, _, _, _, _, _, _) =>
          if e.fd == fd { DispatchFate(before, e); } else { EventIsLocal(before, e, fd); }
      }
    case Swept(before, now) => SweepCloses(before, MAX_FD, now);
  }

  /** The moments of a run lead from its start to its end, one after the other. */
  ghost predicate Leads(s: State, moments: seq<Moment>, t: State)
    requires Inv(s)
    decreases |moments|
  {
    if moments == [] then t == s
    else moments[0].before == s && Inv(AfterMoment(moments[0])) && Leads(AfterMoment(moments[0]), moments[1..], t)
  }

  lemma {:induction false} LeadsThen(s: State, first: seq<Moment>, m: State, second: seq<Moment>, t: State)
    requires Inv(s) && Inv(m) && Leads(s, first, m) && Leads(m, second, t)
    ensures Leads(s, first + second, t)
    decreases |first|
  {
    if first == [] {
      assert first + second == second;
    } else {
      assert (first + second)[1..] == first[1..] + second;
      LeadsThen(AfterMoment(first[0]), first[1..], m, second, t);
    }
  }

  lemma {:induction false} EventsLead(s: State, events: seq<Event>)
    requires Inv(s)
    ensures Leads(s, EventMoments(s, events), HandleAll(s, events))
    decreases |events|
  {
    if events != [] { EventsLead(Handle(s, events[0]), events[1..]); }
  }

  lemma PassLeads(l: Loop, p: Poll)
    requires Inv(l.state)
    ensures Leads(l.state, PassMoments(l, p), Pass(l, p).state)
  {
    if p.Batch? {
      var s := HandleAll(l.state, p.events);
      var events, sweep := EventMoments(l.state, p.events), Swept(s, p.swept);
      EventsLead(l.state, p.events);
      SweepCloses(s, MAX_FD, p.swept);
      if p.tested - l.lastSweep >= 5 {
        assert [sweep][1..] == [];
        LeadsThen(l.state, events, s, [sweep], Sweep(s, MAX_FD, p.swept));
      } else {
        assert events + [] == events;
      }
    }
  }

  lemma {:induction false} RunLeads(l: Loop, polls: seq<Poll>)
    requires Inv(l.state)
    ensures Leads(l.state, Moments(l, polls), Run(l, polls).state)
    decreases |polls|
  {
    if polls != [] && l.running {
      var m := Pass(l, polls[0]);
      PassLeads(l, polls[0]);
      RunLeads(m, polls[1..]);
      LeadsThen(l.state, PassMoments(l, polls[0]), m.state, Moments(m, polls[1..]), Run(l, polls).state);
    }
  }

  lemma {:induction false} SomebodyClosed(s: State, moments: seq<Moment>, t: State, fd: nat)
    requires Inv(s) && Leads(s, moments, t) && fd < MAX_FD && s.slots[fd].Held?
    requires |t.slots| == MAX_FD && t.slots[fd].Free?
    ensures exists m :: m in moments && Inv(m.before) && m.before.slots[fd].Held? && Departs(m, fd)
    decreases |moments|
  {
    var m := moments[0];
    MomentIs(m, fd);
    if AfterMoment(m).slots[fd].Held? {
      SomebodyClosed(AfterMoment(m), moments[1..], t, fd);
    }
  }

  /** Over every run a connection leaves the table only by a hangup, by closing with
      everything delivered, or by a sweep that finds it idle. */
  lemma LeavesForAReason(l: Loop, polls: seq<Poll>, fd: nat)
    requires Inv(l.state) && fd < MAX_FD && l.state.slots[fd].Held? && Run(l, polls).state.slots[fd].Free?
    ensures exists m :: m in Moments(l, polls) && Inv(m.before) && m.before.slots[fd].Held? && Departs(m, fd)
  {
    RunLeads(l, polls);
    SomebodyClosed(l.state, Moments(l, polls), Run(l, polls).state, fd);
  }

  // ---------- nobody is forgotten ----------

  /** Everything an event notes happens at or after a time. */
  predicate NotBefore(t: int, e: Event) {
    match e
    case Listener(offers) => forall i :: 0 <= i < |offers| && offers[i].Offer? ==> offers[i].at >= t
    case Wake => true
    case Ready(_, _, _, _, _, readAt, _, writeAt) => readAt >= t && writeAt >= t
  }

  /** The clock does not go back, and a sweep takes at most `lag` seconds. */
  predicate Clocked(t: int, lag: nat, polls: seq<Poll>)
    decreases |polls|
  {
    polls == [] ||
    (if polls[0].Batch?
     then
       && (forall i :: 0 <= i < |polls[0].events| ==> NotBefore(t, polls[0].events[i]))
       && t <= polls[0].tested <= polls[0].swept <= polls[0].noted <= polls[0].swept + lag
       && Clocked(polls[0].noted, lag, polls[1..])
     else Clocked(t, lag, polls[1..]))
  }

  /** Every connection has been active since a time. */
  predicate ActiveSince(s: State, since: int) {
    forall fd :: 0 <= fd < |s.slots| && s.slots[fd].Held? ==> s.slots[fd].lastActive >= since
  }

  lemma {:induction false} AcceptActive(s: State, offers: seq<AcceptResult>, since: int, t: int)
    requires Inv(s) && ActiveSince(s, since) && since <= t && NotBefore(t, Listener(offers))
    ensures ActiveSince(AcceptNew(s, offers), since)
    decreases |offers|
  {
    if offers != [] && !offers[0].AcceptFailed? {
      var rest := offers[1..];
      assert forall i :: 0 <= i < |rest| ==> rest[i] == offers[i + 1];
      if offers[0].AcceptInterrupted? {
        AcceptActive(s, rest, since, t);
      } else if offers[0].fd < MAX_FD && s.slots[offers[0].fd].Free? {
        AdmitInv(s, offers[0]);
        AcceptActive(Admit(s, offers[0]), rest, since, t);
      }
    }
  }

  lemma HandleActive(s: State, e: Event, since: int, t: int)
    requires Inv(s) && ActiveSince(s, since) && since <= t && NotBefore(t, e)
    ensures ActiveSince(Handle(s, e), since)
  {
    match e
    case Listener(offers) => AcceptActive(s, offers, since, t);
    case Wake =>
    case Ready(_, _, _, _, _, _, _, _) =>
      if e.fd < MAX_FD && s.slots[e.fd].Held? { DispatchFate(s, e); }
      forall fd | 0 <= fd < MAX_FD && Handle(s, e).slots[fd].Held? ensures Handle(s, e).slots[fd].lastActive >= since {
        if fd != e.fd { EventIsLocal(s, e, fd); }
      }
  }

  lemma {:induction false} BatchActive(s: State, events: seq<Event>, since: int, t: int)
    requires Inv(s) && ActiveSince(s, since) && since <= t
    requires forall i :: 0 <= i < |events| ==> NotBefore(t, events[i])
    ensures ActiveSince(HandleAll(s, events), since)
    decreases |events|
  {
    if events != [] {
      HandleActive(s, events[0], since, t);
      BatchActive(Handle(s, events[0]), events[1..], since, t);
    }
  }

  /** The state of the loop with respect to the clock: no connection had been idle for too
      long when the last sweep was done. */
  predicate IdleInv(l: Loop, t: int, lag: nat) {
    l.lastSweep <= t && ActiveSince(l.state, l.lastSweep - lag - IDLE_LIMIT)
  }

  lemma PassIdle(l: Loop, p: Poll, t: int, lag: nat)
    requires Inv(l.state) && IdleInv(l, t, lag) && Clocked(t, lag, [p])
    ensures p.Batch? ==> IdleInv(Pass(l, p), p.noted, lag) && p.tested - Pass(l, p).lastSweep < 5
    ensures !p.Batch? ==> IdleInv(Pass(l, p), t, lag)
  {
    if p.Batch? {
      var s := HandleAll(l.state, p.events);
      BatchActive(l.state, p.events, l.lastSweep - lag - IDLE_LIMIT, t);
      SweepCloses(s, MAX_FD, p.swept);
    }
  }

  lemma {:induction false} RunIdle(l: Loop, polls: seq<Poll>, p: Poll, t: int, lag: nat)
    requires Inv(l.state) && IdleInv(l, t, lag) && Clocked(t, lag, polls + [p]) && p.Batch?
    ensures var m := Pass(Run(l, polls), p);
            Run(l, polls).running ==> p.tested - m.lastSweep < 5 && ActiveSince(m.state, m.lastSweep - lag - IDLE_LIMIT)
    decreases |polls|
  {
    if polls == [] {
      assert polls + [p] == [p];
      PassIdle(l, p, t, lag);
    } else if l.running {
      assert (polls + [p])[1..] == polls[1..] + [p];
      var q := polls[0];
      PassIdle(l, q, t, lag);
      RunIdle(Pass(l, q), polls[1..], p, if q.Batch? then q.noted else t, lag);
    }
  }

  /** Nobody is forgotten: after any pass of a run of the server in which the clock does
      not go back, no connection has been without a transfer for more than IDLE_LIMIT and
      SWEEP_EVERY and the time a sweep takes together. */
  lemma NobodyForgotten(polls: seq<Poll>, p: Poll, start: int, lag: nat)
    requires Clocked(start, lag, polls + [p]) && p.Batch?
    ensures Inv(STARTED)
    ensures var l := Run(Loop(STARTED, true, start), polls);
            l.running ==> forall fd :: 0 <= fd < MAX_FD && Pass(l, p).state.slots[fd].Held? ==>
              p.tested - Pass(l, p).state.slots[fd].lastActive < 30 + 5 + lag
  {
    StartedInv();
    RunIdle(Loop(STARTED, true, start), polls, p, start, lag);
  }

  // ---------- how the loop ends ----------

  /** A wakeup through the self-pipe, or a failure of epoll_wait. */
  predicate Ends(p: Poll) { p.PollFailed? || (p.Batch? && Wake in p.events) }

  /** The loop goes on until there is one, and no longer. */
  lemma {:induction false} RunsUntil(l: Loop, polls: seq<Poll>, more: seq<Poll>)
    requires Inv(l.state)
    ensures Run(l, polls).running <==> l.running && forall i :: 0 <= i < |polls| ==> !Ends(polls[i])
    ensures Run(l, polls + more) == Run(Run(l, polls), more)
    ensures (exists i :: 0 <= i < |polls| && Ends(polls[i])) ==> Run(l, polls + more) == Run(l, polls)
    decreases |polls|
  {
    if polls == [] {
      assert polls + more == more;
    } else if l.running {
      var rest := polls[1..];
      assert (polls + more)[1..] == rest + more;
      RunsUntil(Pass(l, polls[0]), rest, more);
      assert forall i :: 0 < i < |polls| ==> polls[i] == rest[i - 1];
    }
  }
}
