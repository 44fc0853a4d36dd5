/** The select loop of src/forker.c as a state machine: what one pass does to the connection table and to
    the set of open descriptors, and what every run keeps. */
module SelectLoop {
  const MAX_DESCRIPTORS := 25
  const TIMEOUT_SECS := 10

  // ----- states -----

  /** A slot of the table. conn numbers the accepted connections; since is when the slot was filled. */
  datatype Slot = Free | Held(fd: nat, deadline: int, conn: nat, since: int)

  /** How a connection left the table. */
  datatype Fate = TimedOut | HandedToChild | ForkFailed | Refused | ShutDown

  datatype State = State(slots: seq<Slot>, listen: nat, open: set<int>, listening: bool,
                         accepted: nat, fates: map<nat, Fate>, clock: int)

  ghost predicate HasFd(slots: seq<Slot>, i: nat, fd: int) {
    i < |slots| && slots[i].Held? && slots[i].fd == fd
  }

  ghost predicate HasConn(slots: seq<Slot>, i: nat, c: nat) {
    i < |slots| && slots[i].Held? && slots[i].conn == c
  }

  /** The slots own distinct open descriptors, and those and the ones in base are all that is open. */
  ghost predicate OwnsOpen(s: State, base: set<int>) {
    && |s.slots| == MAX_DESCRIPTORS && base <= s.open
    && (forall i :: 0 <= i < |s.slots| && s.slots[i].Held? ==> s.slots[i].fd in s.open && s.slots[i].fd !in base)
    && (forall i, j :: 0 <= i < j < |s.slots| && s.slots[i].Held? && s.slots[j].Held? ==>
          s.slots[i].fd != s.slots[j].fd)
    && (forall o :: o in s.open ==> o in base || exists i :: HasFd(s.slots, i, o))
  }

  /** Every accepted connection is in exactly one slot or has met exactly one fate. */
  ghost predicate Accounted(s: State) {
    && (forall i :: 0 <= i < |s.slots| && s.slots[i].Held? ==>
          s.slots[i].conn < s.accepted && s.slots[i].conn !in s.fates)
    && (forall i, j :: 0 <= i < j < |s.slots| && s.slots[i].Held? && s.slots[j].Held? ==>
          s.slots[i].conn != s.slots[j].conn)
    && (forall c :: c in s.fates ==> c < s.accepted)
    && (forall c :: 0 <= c < s.accepted ==> c in s.fates || exists i :: HasConn(s.slots, i, c))
  }

  /** Every deadline is the time of insertion plus the timeout. */
  ghost predicate Timed(s: State) {
    forall i :: 0 <= i < |s.slots| && s.slots[i].Held? ==>
      0 <= s.slots[i].since <= s.clock && s.slots[i].deadline == s.slots[i].since + TIMEOUT_SECS
  }

  /** What holds at the head of the loop. */
  ghost predicate Inv(s: State) {
    OwnsOpen(s, {s.listen}) && Accounted(s) && Timed(s)
  }

  /** The state forker_loopRead starts from: the listening socket is all that is open. */
  function Initial(listen: nat, clock: int): State {
    State(seq(MAX_DESCRIPTORS, _ => Free), listen, {listen}, true, 0, map[], clock)
  }

  lemma InitialInv(listen: nat, clock: int)
    ensures Inv(Initial(listen, clock))
  {
  }

  // ----- what the functions do to a state -----

  /** Closes the descriptor of slot i and frees the slot. */
  function Release(s: State, i: nat, fate: Fate): State
    requires i < |s.slots| && s.slots[i].Held?
  {
    s.(slots := s.slots[i := Free], open := s.open - {s.slots[i].fd}, fates := s.fates[s.slots[i].conn := fate])
  }

  /** initDescriptorSet on the first n slots. */
  function Expire(s: State, n: nat, now: int): (r: State)
    requires n <= |s.slots|
    ensures |r.slots| == |s.slots| && forall i :: n <= i < |s.slots| ==> r.slots[i] == s.slots[i]
  {
    if n == 0 then s else
      var r := Expire(s, n - 1, now);
      if r.slots[n - 1].Held? && r.slots[n - 1].deadline < now then Release(r, n - 1, TimedOut) else r
  }

  /** The descriptors select waits for. */
  ghost function Offered(s: State, n: nat): set<int>
    requires n <= |s.slots|
  {
    {s.listen} + set i | 0 <= i < n && s.slots[i].Held? :: s.slots[i].fd
  }

  /** closeDescriptors on the first n slots. */
  function CloseSlots(s: State, n: nat): (r: State)
    requires n <= |s.slots|
    ensures |r.slots| == |s.slots| && forall i :: n <= i < |s.slots| ==> r.slots[i] == s.slots[i]
  {
    if n == 0 then s.(open := s.open - {s.listen}) else
      var r := CloseSlots(s, n - 1);
      if r.slots[n - 1].Held? then Release(r, n - 1, ShutDown) else r
  }

  /** What fork leaves behind in this process. */
  datatype Dispatched = Parent(state: State) | Child(fd: nat, open: set<int>)

  /** What processFileDescriptors does with slot i when fork returns pid. */
  function DispatchSlot(r: State, i: nat, now: int, ready: set<int>, pid: int): (d: Dispatched)
    requires i < |r.slots|
    ensures d.Parent? ==> |d.state.slots| == |r.slots| && forall j :: i < j < |r.slots| ==> d.state.slots[j] == r.slots[j]
  {
    var slot := r.slots[i];
    if slot.Held? && slot.deadline < now then Parent(Release(r, i, TimedOut))
    else if slot.Held? && slot.fd in ready then
      if pid == 0 then Child(slot.fd, CloseSlots(r.(slots := r.slots[i := Free]), |r.slots|).open)
      else Parent(Release(r, i, if pid < 0 then ForkFailed else HandedToChild))
    else Parent(r)
  }

  /** processFileDescriptors on the first n slots: times out, or forks for a ready connection. In the child
      only that connection stays open. */
  function Dispatch(s: State, n: nat, now: int, ready: set<int>, pids: seq<int>): (d: Dispatched)
    requires n <= |s.slots| && |pids| == |s.slots|
    ensures d.Parent? ==>
      |d.state.slots| == |s.slots| && forall i :: n <= i < |s.slots| ==> d.state.slots[i] == s.slots[i]
  {
    if n == 0 then Parent(s) else
      match Dispatch(s, n - 1, now, ready, pids)
      case Child(fd, open) => Child(fd, open)
      case Parent(r) =>
        DispatchSlot(r, n - 1, now, ready, pids[n - 1])
  }

  /** The first free slot, or the number of slots. */
  function FirstFree(slots: seq<Slot>): (i: nat)
    ensures i <= |slots| && (i < |slots| ==> slots[i].Free?)
    ensures forall j :: 0 <= j < i ==> slots[j].Held?
  {
    if slots == [] || slots[0].Free? then 0 else 1 + FirstFree(slots[1..])
  }

  /** The accept part of processFileDescriptors: fd is what accept returned. */
  function Accept(s: State, fd: int, sockoptOk: bool, now: int): State {
    if fd < 0 then s else
      var descriptors := if sockoptOk then s.open + {fd} else s.open - {fd};
      var i := FirstFree(s.slots);
      if i < |s.slots| then
        s.(slots := s.slots[i := Held(fd, now + TIMEOUT_SECS, s.accepted, now)], open := descriptors,
           accepted := s.accepted + 1)
      else
        s.(open := descriptors - {fd}, accepted := s.accepted + 1, fates := s.fates[s.accepted := Refused])
  }

  // ----- one pass and a run -----

  /** How select comes back. */
  datatype Select = Ready(ready: set<int>) | Interrupted | Fatal | OtherError

  /** What the environment does in one pass: the times read, how select returns, what fork returns for each
      slot, what accept and setsockopt return, and whether a signal handler stops the loop meanwhile. */
  datatype Event = Event(scanTime: int, select: Select, time: int, pids: seq<int>,
                         acceptResult: int, sockoptOk: bool, insertTime: int, signal: bool)

  datatype Outcome = Running(state: State) | Stopped(state: State) | InChild(fd: nat, open: set<int>) | Panicked(state: State)

  /** The state select is called in. */
  function Scanned(s: State, e: Event): State
    requires |s.slots| == MAX_DESCRIPTORS
  {
    Expire(s, MAX_DESCRIPTORS, e.scanTime).(clock := e.scanTime)
  }

  /** processFileDescriptors */
  function Process(s: State, ready: set<int>, e: Event): (d: Dispatched)
    requires |s.slots| == MAX_DESCRIPTORS == |e.pids|
    ensures d.Parent? ==> |d.state.slots| == MAX_DESCRIPTORS
  {
    match Dispatch(s, MAX_DESCRIPTORS, e.time, ready, e.pids)
    case Child(fd, open) => Child(fd, open)
    case Parent(r) =>
      var t := r.(clock := e.insertTime);
      Parent(if t.listen in ready then Accept(t, e.acceptResult, e.sockoptOk, e.insertTime) else t)
  }

  /** One pass of the loop of forker_loopRead. */
  function Pass(s: State, e: Event): (o: Outcome)
    requires |s.slots| == MAX_DESCRIPTORS == |e.pids|
    ensures o.Running? ==> |o.state.slots| == MAX_DESCRIPTORS
  {
    var s1 := Scanned(s, e);
    var keep := s1.listening && !e.signal;
    match e.select
    case Fatal => Panicked(CloseSlots(s1, MAX_DESCRIPTORS))
    case Interrupted => Running(s1.(listening := false))
    case OtherError => Running(s1.(listening := keep))
    case Ready(ready) =>
      match Process(s1, ready, e)
      case Child(fd, open) => InChild(fd, open)
      case Parent(s2) => Running(s2.(listening := keep))
  }

  /** forker_loopRead as far as the events go: it closes everything once it has been told to stop. */
  function Run(s: State, events: seq<Event>): Outcome
    requires |s.slots| == MAX_DESCRIPTORS && forall k :: 0 <= k < |events| ==> |events[k].pids| == MAX_DESCRIPTORS
    decreases |events|
  {
    if !s.listening then Stopped(CloseSlots(s, MAX_DESCRIPTORS))
    else if events == [] then Running(s)
    else
      match Pass(s, events[0])
      case Running(s1) => Run(s1, events[1..])
      case o => o
  }

  // ----- what every step keeps -----

  lemma ReleaseKeeps(s: State, i: nat, fate: Fate, base: set<int>)
    requires i < |s.slots| && s.slots[i].Held?
    ensures OwnsOpen(s, base) ==> OwnsOpen(Release(s, i, fate), base)
    ensures Accounted(s) ==> Accounted(Release(s, i, fate))
    ensures Timed(s) ==> Timed(Release(s, i, fate))
  {
    if OwnsOpen(s, base) {
      ReleaseOwns(s, i, fate, base);
    }
    if Accounted(s) {
      ReleaseAccounts(s, i, fate);
    }
  }

  lemma ReleaseOwns(s: State, i: nat, fate: Fate, base: set<int>)
    requires i < |s.slots| && s.slots[i].Held? && OwnsOpen(s, base)
    ensures OwnsOpen(Release(s, i, fate), base)
  {
    var r := Release(s, i, fate);
    forall o | o in r.open && o !in base ensures exists j :: HasFd(r.slots, j, o) {
      var j :| HasFd(s.slots, j, o);
      assert HasFd(r.slots, j, o);
    }
  }

  lemma ReleaseAccounts(s: State, i: nat, fate: Fate)
    requires i < |s.slots| && s.slots[i].Held? && Accounted(s)
    ensures Accounted(Release(s, i, fate))
  {
    var r := Release(s, i, fate);
    forall c | 0 <= c < r.accepted && c !in r.fates ensures exists j :: HasConn(r.slots, j, c) {
      var j :| HasConn(s.slots, j, c);
      assert HasConn(r.slots, j, c);
    }
  }

  lemma {:induction false} ExpireKeeps(s: State, n: nat, now: int, base: set<int>)
    requires n <= |s.slots|
    ensures OwnsOpen(s, base) ==> OwnsOpen(Expire(s, n, now), base)
    ensures Accounted(s) ==> Accounted(Expire(s, n, now))
    ensures Timed(s) ==> Timed(Expire(s, n, now))
  {
    if n > 0 {
      ExpireKeeps(s, n - 1, now, base);
      var r := Expire(s, n - 1, now);
      if r.slots[n - 1].Held? && r.slots[n - 1].deadline < now {
        ReleaseKeeps(r, n - 1, TimedOut, base);
      }
    }
  }

  /** closeDescriptors leaves open only what is in no slot and is not the listening socket. */
  lemma {:induction false} CloseSlotsKeeps(s: State, n: nat, base: set<int>)
    requires n <= |s.slots| && s.listen in base && OwnsOpen(s, base)
    ensures OwnsOpen(CloseSlots(s, n), base - {s.listen})
    ensures Accounted(s) ==> Accounted(CloseSlots(s, n))
    ensures forall i :: 0 <= i < n ==> CloseSlots(s, n).slots[i] == Free
    ensures CloseSlots(s, n).accepted == s.accepted
  {
    hide OwnsOpen, Accounted;
    if n == 0 {
      StopListening(s, base);
    } else {
      CloseSlotsKeeps(s, n - 1, base);
      var r := CloseSlots(s, n - 1);
      if r.slots[n - 1].Held? {
        ReleaseKeeps(r, n - 1, ShutDown, base - {s.listen});
      }
    }
  }

  lemma StopListening(s: State, base: set<int>)
    requires s.listen in base && OwnsOpen(s, base)
    ensures OwnsOpen(s.(open := s.open - {s.listen}), base - {s.listen})
    ensures Accounted(s) ==> Accounted(s.(open := s.open - {s.listen}))
  {
    var r := s.(open := s.open - {s.listen});
    forall o | o in r.open && o !in base ensures exists j :: HasFd(r.slots, j, o) {
      var j :| HasFd(s.slots, j, o);
      assert HasFd(r.slots, j, o);
    }
  }

  /** After closeDescriptors exactly the rest of base is open. */
  lemma AllClosed(s: State, base: set<int>)
    requires s.listen in base && OwnsOpen(s, base)
    ensures CloseSlots(s, MAX_DESCRIPTORS).open == base - {s.listen}
  {
    CloseSlotsKeeps(s, MAX_DESCRIPTORS, base);
    var r := CloseSlots(s, MAX_DESCRIPTORS);
    forall o | o in r.open ensures o in base - {s.listen} {
      assert forall i: nat :: !HasFd(r.slots, i, o);
    }
  }

  /** The child of a fork closes the listening socket and every other connection, but not its own. */
  lemma ChildOwnsOne(s: State, i: nat)
    requires OwnsOpen(s, {s.listen}) && i < |s.slots| && s.slots[i].Held?
    ensures CloseSlots(s.(slots := s.slots[i := Free]), MAX_DESCRIPTORS).open == {s.slots[i].fd}
    ensures s.slots[i].fd in s.open && s.slots[i].fd != s.listen
  {
    var t, base := s.(slots := s.slots[i := Free]), {s.listen, s.slots[i].fd};
    forall o | o in t.open && o !in base ensures exists j :: HasFd(t.slots, j, o) {
      var j :| HasFd(s.slots, j, o);
      assert HasFd(t.slots, j, o);
    }
    AllClosed(t, base);
  }

  lemma {:induction false} DispatchKeeps(s: State, n: nat, now: int, ready: set<int>, pids: seq<int>)
    requires n <= |s.slots| == |pids| && Inv(s)
    ensures match Dispatch(s, n, now, ready, pids)
      case Parent(r) => Inv(r) && r.listen == s.listen && r.clock == s.clock && r.accepted == s.accepted
      case Child(fd, open) => open == {fd} && fd in s.open && fd in ready && fd != s.listen
    ensures Dispatch(s, n, now, ready, pids).Parent? ==> Dispatch(s, n, now, ready, pids).state.open <= s.open
  {
    hide OwnsOpen, Accounted, Timed, CloseSlots, DispatchSlot;
    if n > 0 {
      DispatchKeeps(s, n - 1, now, ready, pids);
      match Dispatch(s, n - 1, now, ready, pids) {
        case Child(_, _) =>
        case Parent(r) => DispatchSlotKeeps(r, n - 1, now, ready, pids[n - 1]);
      }
    }
  }

  lemma DispatchSlotKeeps(s: State, i: nat, now: int, ready: set<int>, pid: int)
    requires Inv(s) && i < |s.slots|
    ensures match DispatchSlot(s, i, now, ready, pid)
      case Parent(r) =>
        Inv(r) && r.listen == s.listen && r.clock == s.clock && r.accepted == s.accepted && r.open <= s.open
      case Child(fd, open) => open == {fd} && fd in s.open && fd in ready && fd != s.listen
  {
    assert |s.slots| == MAX_DESCRIPTORS;
    hide OwnsOpen, Accounted, Timed, CloseSlots;
    var slot := s.slots[i];
    if slot.Held? && slot.deadline < now {
      ReleaseKeeps(s, i, TimedOut, {s.listen});
    } else if slot.Held? && slot.fd in ready {
      if pid == 0 {
        ChildOwnsOne(s, i);
      } else {
        ReleaseKeeps(s, i, if pid < 0 then ForkFailed else HandedToChild, {s.listen});
      }
    }
  }

  /** Dispatch frees the slots that have timed out or are ready and leaves the others as they are. */
  lemma {:induction false} DispatchFrees(s: State, n: nat, now: int, ready: set<int>, pids: seq<int>)
    requires n <= |s.slots| == |pids| && Dispatch(s, n, now, ready, pids).Parent?
    ensures var r := Dispatch(s, n, now, ready, pids).state;
      forall j :: 0 <= j < n ==>
        r.slots[j] == if s.slots[j].Held? && (s.slots[j].deadline < now || s.slots[j].fd in ready) then Free else s.slots[j]
  {
    hide CloseSlots;
    if n > 0 {
      DispatchFrees(s, n - 1, now, ready, pids);
    }
  }

  /** The number of a connection that dispatch has closed is free again: accept may return it at once. */
  lemma ClosedMayReturn(s: State, now: int, ready: set<int>, pids: seq<int>, i: nat)
    requires Inv(s) && |pids| == MAX_DESCRIPTORS && i < |s.slots| && s.slots[i].Held?
    requires s.slots[i].deadline < now || s.slots[i].fd in ready
    requires Dispatch(s, MAX_DESCRIPTORS, now, ready, pids).Parent?
    ensures s.slots[i].fd !in Dispatch(s, MAX_DESCRIPTORS, now, ready, pids).state.open
  {
    DispatchKeeps(s, MAX_DESCRIPTORS, now, ready, pids);
    DispatchFrees(s, MAX_DESCRIPTORS, now, ready, pids);
    hide Dispatch, Accounted, Timed;
    var r := Dispatch(s, MAX_DESCRIPTORS, now, ready, pids).state;
    assert forall j: nat :: !HasFd(r.slots, j, s.slots[i].fd);
  }

  // ----- accepting a connection -----

  lemma {:induction false} FirstFreeIsFree(slots: seq<Slot>, j: nat)
    requires j < |slots| && slots[j].Free?
    ensures FirstFree(slots) <= j
  {
    if !slots[0].Free? {
      FirstFreeIsFree(slots[1..], j - 1);
    }
  }

  /** A new connection with a fresh descriptor keeps the invariant exactly when setsockopt succeeds or the
      table is full: a socket closed for a failed setsockopt is entered into the table all the same. */
  lemma AcceptKeepsInvIff(s: State, fd: int, sockoptOk: bool)
    requires Inv(s) && fd >= 0 && fd !in s.open && s.clock >= 0
    ensures Inv(Accept(s, fd, sockoptOk, s.clock)) <==> sockoptOk || FirstFree(s.slots) == |s.slots|
  {
    if sockoptOk || FirstFree(s.slots) == |s.slots| {
      AcceptOwns(s, fd, sockoptOk);
      AcceptAccounts(s, fd, sockoptOk, s.clock);
      AcceptTimes(s, fd, sockoptOk);
    } else {
      AcceptedClosed(s, fd);
    }
    hide OwnsOpen, Accounted, Timed;
  }

  lemma AcceptTimes(s: State, fd: int, sockoptOk: bool)
    requires Timed(s) && s.clock >= 0
    ensures Timed(Accept(s, fd, sockoptOk, s.clock))
  {
  }

  lemma AcceptedClosed(s: State, fd: int)
    requires fd >= 0 && FirstFree(s.slots) < |s.slots|
    ensures !OwnsOpen(Accept(s, fd, false, s.clock), {s.listen})
  {
    var r, i := Accept(s, fd, false, s.clock), FirstFree(s.slots);
    assert r.slots[i].Held? && r.slots[i].fd !in r.open;
  }

  lemma AcceptOwns(s: State, fd: int, sockoptOk: bool)
    requires Inv(s) && fd >= 0 && fd !in s.open && (sockoptOk || FirstFree(s.slots) == |s.slots|)
    ensures OwnsOpen(Accept(s, fd, sockoptOk, s.clock), {s.listen})
  {
    var r, i := Accept(s, fd, sockoptOk, s.clock), FirstFree(s.slots);
    forall o | o in r.open && o != s.listen ensures exists j :: HasFd(r.slots, j, o) {
      if o == fd {
        assert HasFd(r.slots, i, o);
      } else {
        var j :| HasFd(s.slots, j, o);
        assert HasFd(r.slots, j, o);
      }
    }
  }

  lemma AcceptAccounts(s: State, fd: int, sockoptOk: bool, now: int)
    requires Accounted(s)
    ensures Accounted(Accept(s, fd, sockoptOk, now))
  {
    var r, i := Accept(s, fd, sockoptOk, now), FirstFree(s.slots);
    if fd >= 0 {
      forall c | 0 <= c < r.accepted && c !in r.fates ensures exists j :: HasConn(r.slots, j, c) {
        if c == s.accepted {
          assert HasConn(r.slots, i, c);
        } else {
          var j :| HasConn(s.slots, j, c);
          assert HasConn(r.slots, j, c);
        }
      }
    }
  }

  // ----- every run -----

  /** What the environment promises for one pass: fork results for every slot, a clock that does not run
      backwards, and, where accept is reached, a descriptor that is not open at that time and a setsockopt
      that succeeds unless the table is full. A number closed earlier in the pass may come back. Nothing is
      asked of select. */
  ghost predicate Promised(s: State, e: Event)
    requires |s.slots| == MAX_DESCRIPTORS
  {
    && |e.pids| == MAX_DESCRIPTORS && 0 <= s.clock <= e.scanTime <= e.time <= e.insertTime
    && (e.select.Ready? ==> Accepts(Scanned(s, e), e.select.ready, e))
  }

  /** The promise about accept and setsockopt, in the state that dispatch leaves. */
  ghost predicate Accepts(s: State, ready: set<int>, e: Event)
    requires |s.slots| == MAX_DESCRIPTORS == |e.pids|
  {
    var d := Dispatch(s, MAX_DESCRIPTORS, e.time, ready, e.pids);
    d.Parent? && s.listen in ready && e.acceptResult >= 0 ==>
      && e.acceptResult !in d.state.open
      && (e.sockoptOk || FirstFree(d.state.slots) == MAX_DESCRIPTORS)
  }

  /** The promise, pass after pass. */
  ghost predicate AllPromised(s: State, events: seq<Event>)
    requires |s.slots| == MAX_DESCRIPTORS && forall k :: 0 <= k < |events| ==> |events[k].pids| == MAX_DESCRIPTORS
    decreases |events|
  {
    s.listening && events != [] ==>
      Promised(s, events[0]) && (Pass(s, events[0]).Running? ==> AllPromised(Pass(s, events[0]).state, events[1..]))
  }

  /** One pass keeps the invariant; a child is left with its one connection, a panic with nothing open. */
  lemma PassKeeps(s: State, e: Event)
    requires Inv(s) && Promised(s, e)
    ensures match Pass(s, e)
      case Running(r) => Inv(r) && r.clock >= s.clock && r.listen == s.listen
      case InChild(fd, open) => open == {fd} && fd in s.open && fd != s.listen
      case Panicked(r) => r.open == {} && Accounted(r)
      case Stopped(_) => false
  {
    ExpireKeeps(s, MAX_DESCRIPTORS, e.scanTime, {s.listen});
    ExpireFields(s, MAX_DESCRIPTORS, e.scanTime);
    var s1 := Scanned(s, e);
    assert Inv(s1) && s1.listen == s.listen && s1.clock == e.scanTime;
    ListeningIrrelevant(s1);
    assert s1.open <= s.open;
    match e.select
    case Ready(ready) =>
      ProcessKeeps(s1, ready, e);
      hide OwnsOpen, Accounted, Timed, Process, Scanned;
      match Process(s1, ready, e) {
        case Parent(s2) => ListeningIrrelevant(s2);
        case Child(_, _) =>
      }
    case Fatal =>
      AllClosed(s1, {s.listen});
      CloseSlotsKeeps(s1, MAX_DESCRIPTORS, {s.listen});
      hide OwnsOpen, Accounted, Timed, CloseSlots, Scanned;
    case _ =>
      hide OwnsOpen, Accounted, Timed, Scanned;
  }

  lemma ListeningIrrelevant(s: State)
    requires Inv(s)
    ensures forall listening :: Inv(s.(listening := listening))
  {
  }

  lemma {:induction false} ExpireFields(s: State, n: nat, now: int)
    requires n <= |s.slots|
    ensures var r := Expire(s, n, now);
      && r.listen == s.listen && r.listening == s.listening && r.accepted == s.accepted && r.clock == s.clock
      && r.open <= s.open
  {
    if n > 0 {
      ExpireFields(s, n - 1, now);
    }
  }

  lemma ProcessKeeps(s: State, ready: set<int>, e: Event)
    requires Inv(s) && |e.pids| == MAX_DESCRIPTORS && 0 <= s.clock <= e.insertTime
    requires Accepts(s, ready, e)
    ensures match Process(s, ready, e)
      case Parent(r) => Inv(r) && r.clock == e.insertTime && r.listen == s.listen
      case Child(fd, open) => open == {fd} && fd in s.open && fd != s.listen
  {
    DispatchKeeps(s, MAX_DESCRIPTORS, e.time, ready, e.pids);
    match Dispatch(s, MAX_DESCRIPTORS, e.time, ready, e.pids)
    case Child(_, _) =>
    case Parent(r) =>
      var t := r.(clock := e.insertTime);
      assert Inv(t);
      if t.listen in ready && e.acceptResult >= 0 {
        AcceptKeepsInvIff(t, e.acceptResult, e.sockoptOk);
      }
  }

  /** Safety of every run: the invariant holds whenever the loop is still going; once it has stopped, or
      given up on a broken select, nothing is open and every connection has met its fate; and a child owns
      exactly its own connection. */
  lemma {:induction false} RunIsSafe(s: State, events: seq<Event>)
    requires Inv(s) && forall k :: 0 <= k < |events| ==> |events[k].pids| == MAX_DESCRIPTORS
    requires AllPromised(s, events)
    ensures match Run(s, events)
      case Running(r) => Inv(r)
      case Stopped(r) => r.open == {} && Accounted(r) && forall i :: 0 <= i < |r.slots| ==> r.slots[i] == Free
      case InChild(fd, open) => open == {fd} && fd != s.listen
      case Panicked(r) => r.open == {} && Accounted(r)
    decreases |events|
  {
    if !s.listening {
      AllClosed(s, {s.listen});
      CloseSlotsKeeps(s, MAX_DESCRIPTORS, {s.listen});
    } else if events != [] {
      PassKeeps(s, events[0]);
      match Pass(s, events[0])
      case Running(r) => RunIsSafe(r, events[1..]);
      case _ =>
    }
  }

  // ----- conservation -----

  function HeldCount(slots: seq<Slot>): nat {
    if slots == [] then 0 else HeldCount(slots[..|slots| - 1]) + if slots[|slots| - 1].Held? then 1 else 0
  }

  function HeldConns(slots: seq<Slot>): (conns: set<nat>)
    ensures forall c :: c in conns ==> exists i :: HasConn(slots, i, c)
    ensures forall i :: 0 <= i < |slots| && slots[i].Held? ==> slots[i].conn in conns
  {
    if slots == [] then {} else
      var init, last := slots[..|slots| - 1], slots[|slots| - 1];
      assert forall c, i: nat :: HasConn(init, i, c) ==> HasConn(slots, i, c);
      assert last.Held? ==> HasConn(slots, |slots| - 1, last.conn);
      HeldConns(init) + if last.Held? then {last.conn} else {}
  }

  /** The numbers below n. */
  function Below(n: nat): (numbers: set<nat>)
    ensures forall c: nat :: c in numbers <==> c < n
    ensures |numbers| == n
  {
    if n == 0 then {} else Below(n - 1) + {n - 1}
  }

  /** How many connections met a fate. */
  function Met(fates: map<nat, Fate>, fate: Fate): nat {
    |Those(fates, fate)|
  }

  function Those(fates: map<nat, Fate>, fate: Fate): set<nat> {
    set c | c in fates && fates[c] == fate
  }

  /** The accepted connections are those in slots plus those that met each kind of fate. */
  lemma AcceptedAddsUp(s: State)
    requires Accounted(s)
    ensures s.accepted == HeldCount(s.slots) + Met(s.fates, TimedOut) + Met(s.fates, HandedToChild)
      + Met(s.fates, ForkFailed) + Met(s.fates, Refused) + Met(s.fates, ShutDown)
  {
    var all := Below(s.accepted);
    assert all == HeldConns(s.slots) + s.fates.Keys by {
      forall c: nat | c in all && c !in s.fates ensures c in HeldConns(s.slots) {
        var i :| HasConn(s.slots, i, c);
      }
    }
    HeldConnsCount(s.slots);
    FatesPartition(s.fates);
  }

  lemma {:induction false} HeldConnsCount(slots: seq<Slot>)
    requires forall i, j :: 0 <= i < j < |slots| && slots[i].Held? && slots[j].Held? ==> slots[i].conn != slots[j].conn
    ensures |HeldConns(slots)| == HeldCount(slots)
  {
    if slots != [] {
      var init, last := slots[..|slots| - 1], slots[|slots| - 1];
      HeldConnsCount(init);
      assert forall i: nat, c: nat :: HasConn(init, i, c) ==> slots[i].Held? && slots[i].conn == c;
    }
  }

  lemma FatesPartition(fates: map<nat, Fate>)
    ensures |fates.Keys| == Met(fates, TimedOut) + Met(fates, HandedToChild) + Met(fates, ForkFailed)
      + Met(fates, Refused) + Met(fates, ShutDown)
  {
    var a, b, d := Those(fates, TimedOut), Those(fates, HandedToChild), Those(fates, ForkFailed);
    var e, f := Those(fates, Refused), Those(fates, ShutDown);
    EveryFate(fates);
    hide Those;
    DisjointUnion(a + b + d + e, f);
    DisjointUnion(a + b + d, e);
    DisjointUnion(a + b, d);
    DisjointUnion(a, b);
  }

  /** The five kinds of fate exclude each other and are all there are. */
  lemma EveryFate(fates: map<nat, Fate>)
    ensures forall x, y :: x != y ==> Those(fates, x) !! Those(fates, y)
    ensures fates.Keys == Those(fates, TimedOut) + Those(fates, HandedToChild) + Those(fates, ForkFailed)
      + Those(fates, Refused) + Those(fates, ShutDown)
  {
    assert forall c :: c in fates ==> c in Those(fates, fates[c]);
  }

  lemma DisjointUnion(a: set<nat>, b: set<nat>)
    requires a !! b
    ensures |a + b| == |a| + |b|
  {
  }

  /** Whoever stops the loop: each connection it ever accepted has met exactly one fate. */
  lemma StoppedAddsUp(s: State, events: seq<Event>)
    requires Inv(s) && forall k :: 0 <= k < |events| ==> |events[k].pids| == MAX_DESCRIPTORS
    requires AllPromised(s, events) && Run(s, events).Stopped?
    ensures var r := Run(s, events).state;
      && (forall c: nat :: c in r.fates <==> c < r.accepted)
      && r.accepted == Met(r.fates, TimedOut) + Met(r.fates, HandedToChild)
           + Met(r.fates, ForkFailed) + Met(r.fates, Refused) + Met(r.fates, ShutDown)
  {
    RunIsSafe(s, events);
    var r := Run(s, events).state;
    AcceptedAddsUp(r);
    NoneHeld(r.slots);
    assert forall c: nat, i: nat :: !HasConn(r.slots, i, c);
  }

  lemma {:induction false} NoneHeld(slots: seq<Slot>)
    requires forall i :: 0 <= i < |slots| ==> slots[i] == Free
    ensures HeldCount(slots) == 0
  {
    if slots != [] {
      NoneHeld(slots[..|slots| - 1]);
    }
  }

  // ----- one scan and one dispatch, slot by slot -----

  /** A scan closes exactly the entries past their deadline and leaves every other slot as it is. */
  lemma {:induction false} ExpiresExactly(s: State, n: nat, now: int)
    requires n <= |s.slots| && OwnsOpen(s, {s.listen})
    ensures var r := Expire(s, n, now);
      && (forall i :: 0 <= i < n ==>
            r.slots[i] == if s.slots[i].Held? && s.slots[i].deadline < now then Free else s.slots[i])
      && (forall o :: o in r.open <==>
            (o in s.open && !exists i :: 0 <= i < n && s.slots[i].Held? && s.slots[i].deadline < now && s.slots[i].fd == o))
  {
    if n > 0 {
      ExpiresExactly(s, n - 1, now);
    }
  }

  /** What select waits for has not expired: every remaining deadline lies between now and now plus the timeout. */
  lemma RemainingInTime(s: State, now: int, i: nat)
    requires Inv(s) && s.clock <= now && i < |s.slots|
    requires Expire(s, MAX_DESCRIPTORS, now).slots[i].Held?
    ensures now <= Expire(s, MAX_DESCRIPTORS, now).slots[i].deadline <= now + TIMEOUT_SECS
  {
    ExpiresExactly(s, MAX_DESCRIPTORS, now);
  }

  /** A connection the parent counts as handed over is the one connection of the child that fork made: had
      fork returned 0 there, this process would own exactly that descriptor. */
  lemma {:induction false} HandedToItsChild(s: State, n: nat, now: int, ready: set<int>, pids: seq<int>, i: nat)
    requires Inv(s) && i < n <= |s.slots| == |pids| && s.slots[i].Held?
    requires var d := Dispatch(s, n, now, ready, pids);
      d.Parent? && s.slots[i].conn in d.state.fates && d.state.fates[s.slots[i].conn] == HandedToChild
    ensures Dispatch(s, n, now, ready, pids[i := 0]) == Child(s.slots[i].fd, {s.slots[i].fd})
  {
    assert i < n - 1 && s.slots[n - 1].Held? ==> s.slots[n - 1].conn != s.slots[i].conn;
    DispatchKeeps(s, n - 1, now, ready, pids);
    hide OwnsOpen, Accounted, Timed, DispatchSlot;
    var r := Dispatch(s, n - 1, now, ready, pids).state;
    if i == n - 1 {
      SamePids(s, i, now, ready, pids, pids[i := 0]);
      HandedOver(r, i, now, ready, pids[i]);
    } else {
      OtherFate(r, n - 1, now, ready, pids[n - 1], s.slots[i].conn);
      HandedToItsChild(s, n - 1, now, ready, pids, i);
    }
  }

  lemma HandedOver(s: State, i: nat, now: int, ready: set<int>, pid: int)
    requires Inv(s) && i < |s.slots| && s.slots[i].Held?
    requires var d := DispatchSlot(s, i, now, ready, pid);
      d.Parent? && s.slots[i].conn in d.state.fates && d.state.fates[s.slots[i].conn] == HandedToChild
    ensures DispatchSlot(s, i, now, ready, 0) == Child(s.slots[i].fd, {s.slots[i].fd})
  {
    ChildOwnsOne(s, i);
    assert s.slots[i].conn !in s.fates;
    hide OwnsOpen, Accounted, Timed, CloseSlots;
  }

  lemma OtherFate(s: State, i: nat, now: int, ready: set<int>, pid: int, c: nat)
    requires i < |s.slots| && (s.slots[i].Held? ==> s.slots[i].conn != c)
    requires var d := DispatchSlot(s, i, now, ready, pid);
      d.Parent? && c in d.state.fates && d.state.fates[c] == HandedToChild
    ensures c in s.fates && s.fates[c] == HandedToChild
  {
    hide CloseSlots;
  }

  lemma {:induction false} SamePids(s: State, n: nat, now: int, ready: set<int>, pids: seq<int>, pids': seq<int>)
    requires n <= |s.slots| == |pids| == |pids'| && pids[..n] == pids'[..n]
    ensures Dispatch(s, n, now, ready, pids) == Dispatch(s, n, now, ready, pids')
  {
    if n > 0 {
      assert pids[..n - 1] == pids[..n][..n - 1] == pids'[..n - 1];
      SamePids(s, n - 1, now, ready, pids, pids');
      assert pids[n - 1] == pids[..n][n - 1] == pids'[n - 1];
    }
  }
}
