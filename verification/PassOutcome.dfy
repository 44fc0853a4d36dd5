/** What one pass of the select loop of src/forker.c does to each connection, said slot by slot. */
module PassOutcome {
  import opened SelectLoop

  // ----- fates -----

  /** No fate that has been met changes. */
  ghost predicate FatesKept(s: State, r: State) {
    forall c :: c in s.fates ==> c in r.fates && r.fates[c] == s.fates[c]
  }

  /** A scan: an expired connection has timed out, and no other connection has met a fate. */
  lemma {:induction false} ExpireFates(s: State, n: nat, now: int)
    requires n <= |s.slots| && Accounted(s)
    ensures var r := Expire(s, n, now);
      && FatesKept(s, r)
      && (forall i :: 0 <= i < n && s.slots[i].Held? && s.slots[i].deadline < now ==>
            s.slots[i].conn in r.fates && r.fates[s.slots[i].conn] == TimedOut)
      && (forall c :: c in r.fates && c !in s.fates ==>
            exists i :: 0 <= i < n && HasConn(s.slots, i, c) && s.slots[i].deadline < now)
  {
    if n > 0 {
      var before, after, slot := Expire(s, n - 1, now), Expire(s, n, now), s.slots[n - 1];
      ExpireFates(s, n - 1, now);
      assert after == if slot.Held? && slot.deadline < now then Release(before, n - 1, TimedOut) else before;
      assert forall i :: 0 <= i < n - 1 && s.slots[i].Held? && slot.Held? ==> s.slots[i].conn != slot.conn;
      hide Accounted, Expire;
      if slot.Held? {
        assert HasConn(s.slots, n - 1, slot.conn);
      }
    }
  }

  /** Dispatch: an expired connection has timed out; one that is ready went to a child exactly when fork
      returned a process, and to nobody exactly when fork failed; no other connection has met a fate. */
  lemma {:induction false} DispatchFates(s: State, n: nat, now: int, ready: set<int>, pids: seq<int>)
    requires n <= |s.slots| == |pids| && Accounted(s) && Dispatch(s, n, now, ready, pids).Parent?
    ensures var r := Dispatch(s, n, now, ready, pids).state;
      && FatesKept(s, r)
      && (forall i :: 0 <= i < n && s.slots[i].Held? && s.slots[i].deadline < now ==>
            s.slots[i].conn in r.fates && r.fates[s.slots[i].conn] == TimedOut)
      && (forall i :: 0 <= i < n && s.slots[i].Held? && s.slots[i].deadline >= now && s.slots[i].fd in ready ==>
            && s.slots[i].conn in r.fates
            && (r.fates[s.slots[i].conn] == HandedToChild <==> pids[i] > 0)
            && (r.fates[s.slots[i].conn] == ForkFailed <==> pids[i] < 0))
      && (forall c :: c in r.fates && c !in s.fates ==> HasLeft(s, n, c, now, ready))
  {
    var r := Dispatch(s, n, now, ready, pids).state;
    forall c | c in s.fates ensures c in r.fates && r.fates[c] == s.fates[c] {
      OtherFate(s, n, now, ready, pids, c);
    }
    forall i | 0 <= i < n && s.slots[i].Held?
      ensures SlotFate(s, r, i, now, ready, pids)
    {
      DispatchFate(s, n, now, ready, pids, i);
    }
    forall c | c in r.fates && c !in s.fates
      ensures HasLeft(s, n, c, now, ready)
    {
      if forall j: nat :: j < n ==> !HasConn(s.slots, j, c) {
        OtherFate(s, n, now, ready, pids, c);
      } else {
        var i: nat :| i < n && HasConn(s.slots, i, c);
        assert SlotFate(s, r, i, now, ready, pids);
      }
    }
    assert forall i :: 0 <= i < n && s.slots[i].Held? ==> SlotFate(s, r, i, now, ready, pids);
    hide Dispatch, Accounted;
  }

  /** The connection was in one of the first n slots, and late or ready. */
  ghost predicate HasLeft(s: State, n: nat, c: nat, now: int, ready: set<int>)
    requires n <= |s.slots|
  {
    exists i :: 0 <= i < n && HasConn(s.slots, i, c) && (s.slots[i].deadline < now || s.slots[i].fd in ready)
  }

  /** The fate of the connection in slot i after dispatch. */
  ghost predicate SlotFate(s: State, r: State, i: nat, now: int, ready: set<int>, pids: seq<int>)
    requires i < |s.slots| == |pids| && s.slots[i].Held?
  {
    var slot := s.slots[i];
    if slot.deadline < now then slot.conn in r.fates && r.fates[slot.conn] == TimedOut
    else if slot.fd in ready then
      && slot.conn in r.fates
      && (r.fates[slot.conn] == HandedToChild <==> pids[i] > 0)
      && (r.fates[slot.conn] == ForkFailed <==> pids[i] < 0)
    else slot.conn !in r.fates
  }

  /** A connection that is in none of the slots keeps its fate, or stays without one. */
  lemma {:induction false} OtherFate(s: State, n: nat, now: int, ready: set<int>, pids: seq<int>, c: nat)
    requires n <= |s.slots| == |pids| && Dispatch(s, n, now, ready, pids).Parent?
    requires forall j: nat :: j < n ==> !HasConn(s.slots, j, c)
    ensures var r := Dispatch(s, n, now, ready, pids).state;
      (c in r.fates <==> c in s.fates) && (c in s.fates ==> r.fates[c] == s.fates[c])
  {
    hide CloseSlots;
    if n > 0 {
      OtherFate(s, n - 1, now, ready, pids, c);
      assert !HasConn(s.slots, n - 1, c);
    }
  }

  lemma {:induction false} DispatchFate(s: State, n: nat, now: int, ready: set<int>, pids: seq<int>, i: nat)
    requires n <= |s.slots| == |pids| && Accounted(s) && Dispatch(s, n, now, ready, pids).Parent?
    requires i < n && s.slots[i].Held?
    ensures SlotFate(s, Dispatch(s, n, now, ready, pids).state, i, now, ready, pids)
  {
    var before, after := Dispatch(s, n - 1, now, ready, pids).state, Dispatch(s, n, now, ready, pids).state;
    hide CloseSlots;
    assert after == DispatchSlot(before, n - 1, now, ready, pids[n - 1]).state && before.slots[n - 1] == s.slots[n - 1];
    if i == n - 1 {
      assert forall j: nat :: j < n - 1 ==> !HasConn(s.slots, j, s.slots[i].conn);
      OtherFate(s, n - 1, now, ready, pids, s.slots[i].conn);
    } else {
      DispatchFate(s, n - 1, now, ready, pids, i);
      assert s.slots[n - 1].Held? ==> s.slots[n - 1].conn != s.slots[i].conn;
    }
    hide Dispatch, Accounted;
  }

  /** Shutting down: every connection that is still in a slot is shut down, and no other meets a fate. */
  lemma {:induction false} CloseFates(s: State, n: nat)
    requires n <= |s.slots| && Accounted(s)
    ensures var r := CloseSlots(s, n);
      && FatesKept(s, r)
      && (forall i :: 0 <= i < n && s.slots[i].Held? ==>
            s.slots[i].conn in r.fates && r.fates[s.slots[i].conn] == ShutDown)
      && (forall c :: c in r.fates && c !in s.fates ==> exists i :: 0 <= i < n && HasConn(s.slots, i, c))
  {
    var r := CloseSlots(s, n);
    forall c | c in s.fates ensures c in r.fates && r.fates[c] == s.fates[c] {
      OtherClosed(s, n, c);
    }
    forall i | 0 <= i < n && s.slots[i].Held?
      ensures s.slots[i].conn in r.fates && r.fates[s.slots[i].conn] == ShutDown
    {
      ClosedFate(s, n, i);
    }
    forall c | c in r.fates && c !in s.fates ensures exists i :: 0 <= i < n && HasConn(s.slots, i, c) {
      if forall j: nat :: j < n ==> !HasConn(s.slots, j, c) {
        OtherClosed(s, n, c);
      }
    }
    hide CloseSlots, Accounted;
  }

  lemma {:induction false} OtherClosed(s: State, n: nat, c: nat)
    requires n <= |s.slots| && forall j: nat :: j < n ==> !HasConn(s.slots, j, c)
    ensures var r := CloseSlots(s, n); (c in r.fates <==> c in s.fates) && (c in s.fates ==> r.fates[c] == s.fates[c])
  {
    if n > 0 {
      OtherClosed(s, n - 1, c);
      assert !HasConn(s.slots, n - 1, c);
    }
  }

  lemma {:induction false} ClosedFate(s: State, n: nat, i: nat)
    requires i < n <= |s.slots| && s.slots[i].Held?
    ensures s.slots[i].conn in CloseSlots(s, n).fates && CloseSlots(s, n).fates[s.slots[i].conn] == ShutDown
  {
    if i < n - 1 {
      ClosedFate(s, n - 1, i);
    }
  }

  // ----- the child -----

  /** Slot i is the first at which fork returns in the child: its connection is in time and ready. */
  ghost predicate ForksAt(s: State, i: nat, now: int, ready: set<int>, pids: seq<int>) {
    && i < |s.slots| == |pids| && ForkReturnsZero(s.slots[i], now, ready, pids[i])
    && forall j :: 0 <= j < i ==> !ForkReturnsZero(s.slots[j], now, ready, pids[j])
  }

  predicate ForkReturnsZero(slot: Slot, now: int, ready: set<int>, pid: int) {
    slot.Held? && slot.deadline >= now && slot.fd in ready && pid == 0
  }

  /** This process is a child exactly when fork has returned 0 for a connection, and then it is that of the
      first such connection. */
  lemma {:induction false} ChildIff(s: State, n: nat, now: int, ready: set<int>, pids: seq<int>)
    requires n <= |s.slots| == |pids|
    ensures var d := Dispatch(s, n, now, ready, pids);
      && (d.Parent? <==> forall i :: 0 <= i < n ==> !ForkReturnsZero(s.slots[i], now, ready, pids[i]))
      && (forall i: nat :: i < n && ForksAt(s, i, now, ready, pids) ==> d.Child? && d.fd == s.slots[i].fd)
  {
    hide CloseSlots;
    if n > 0 {
      ChildIff(s, n - 1, now, ready, pids);
    }
  }

  // ----- accepting -----

  /** The slot is held by a connection that is neither late nor ready. */
  predicate Busy(slot: Slot, now: int, ready: set<int>) {
    slot.Held? && slot.deadline >= now && slot.fd !in ready
  }

  ghost predicate FirstIdle(s: State, i: nat, now: int, ready: set<int>) {
    && i < |s.slots| && !Busy(s.slots[i], now, ready)
    && forall j :: 0 <= j < i ==> Busy(s.slots[j], now, ready)
  }

  lemma {:induction false} DispatchFields(s: State, n: nat, now: int, ready: set<int>, pids: seq<int>)
    requires n <= |s.slots| == |pids| && Dispatch(s, n, now, ready, pids).Parent?
    ensures var r := Dispatch(s, n, now, ready, pids).state; r.listen == s.listen && r.accepted == s.accepted
  {
    hide CloseSlots;
    if n > 0 {
      DispatchFields(s, n - 1, now, ready, pids);
    }
  }

  /** What processFileDescriptors leaves in a process that stays the parent. When the listening socket is ready
      and accept returns a descriptor, exactly one connection is counted: it takes the first slot that is not
      busy, with its deadline, or is refused when all are. Otherwise none is counted. */
  lemma ProcessIs(s: State, ready: set<int>, e: Event)
    requires |s.slots| == MAX_DESCRIPTORS == |e.pids| && Process(s, ready, e).Parent?
    ensures var r, accepting := Process(s, ready, e).state, s.listen in ready && e.acceptResult >= 0;
      && r.accepted == s.accepted + (if accepting then 1 else 0)
      && (forall i :: 0 <= i < MAX_DESCRIPTORS ==>
            r.slots[i] == if accepting && FirstIdle(s, i, e.time, ready)
                          then Held(e.acceptResult, e.insertTime + TIMEOUT_SECS, s.accepted, e.insertTime)
                          else if Busy(s.slots[i], e.time, ready) then s.slots[i] else Free)
      && (accepting && (forall i :: 0 <= i < MAX_DESCRIPTORS ==> Busy(s.slots[i], e.time, ready)) ==>
            s.accepted in r.fates && r.fates[s.accepted] == Refused && e.acceptResult !in r.open)
  {
    DispatchFields(s, MAX_DESCRIPTORS, e.time, ready, e.pids);
    DispatchFrees(s, MAX_DESCRIPTORS, e.time, ready, e.pids);
    hide Dispatch;
    var r := Dispatch(s, MAX_DESCRIPTORS, e.time, ready, e.pids).state;
    assert forall i :: 0 <= i < MAX_DESCRIPTORS ==> (r.slots[i].Held? <==> Busy(s.slots[i], e.time, ready));
    var first := FirstFree(r.slots);
    assert forall i: nat :: FirstIdle(s, i, e.time, ready) <==> i == first < MAX_DESCRIPTORS;
  }

  /** And the fates: those of dispatch, and that of a connection that is refused. */
  lemma ProcessFates(s: State, ready: set<int>, e: Event)
    requires |s.slots| == MAX_DESCRIPTORS == |e.pids| && Accounted(s) && Process(s, ready, e).Parent?
    ensures var r := Process(s, ready, e).state;
      && FatesKept(s, r)
      && (forall i :: 0 <= i < MAX_DESCRIPTORS && s.slots[i].Held? ==> SlotFate(s, r, i, e.time, ready, e.pids))
      && (forall c :: c in r.fates && c !in s.fates ==>
            c == s.accepted || HasLeft(s, MAX_DESCRIPTORS, c, e.time, ready))
  {
    var d, r := Dispatch(s, MAX_DESCRIPTORS, e.time, ready, e.pids).state, Process(s, ready, e).state;
    DispatchFields(s, MAX_DESCRIPTORS, e.time, ready, e.pids);
    assert r.fates == d.fates || r.fates == d.fates[s.accepted := Refused] by { hide Dispatch, FirstFree; }
    hide Process;
    DispatchFates(s, MAX_DESCRIPTORS, e.time, ready, e.pids);
    AllFated(s, e.time, ready, e.pids);
    hide Dispatch, FatesKept, SlotFate, HasLeft;
    OneMoreFate(s, d, r, e.time, ready, e.pids);
  }

  lemma AllFated(s: State, now: int, ready: set<int>, pids: seq<int>)
    requires |s.slots| == |pids| && Accounted(s) && Dispatch(s, |s.slots|, now, ready, pids).Parent?
    ensures var d := Dispatch(s, |s.slots|, now, ready, pids).state;
      forall i :: 0 <= i < |s.slots| && s.slots[i].Held? ==> SlotFate(s, d, i, now, ready, pids)
  {
    hide Dispatch;
    forall i | 0 <= i < |s.slots| && s.slots[i].Held?
      ensures SlotFate(s, Dispatch(s, |s.slots|, now, ready, pids).state, i, now, ready, pids)
    {
      DispatchFate(s, |s.slots|, now, ready, pids, i);
    }
  }

  /** The fate of a connection that was not known before changes nothing for those that were. */
  lemma OneMoreFate(s: State, d: State, r: State, now: int, ready: set<int>, pids: seq<int>)
    requires |s.slots| == |pids| && Accounted(s) && FatesKept(s, d)
    requires r.fates == d.fates || r.fates == d.fates[s.accepted := Refused]
    requires forall i :: 0 <= i < |s.slots| && s.slots[i].Held? ==> SlotFate(s, d, i, now, ready, pids)
    ensures FatesKept(s, r)
    ensures forall i :: 0 <= i < |s.slots| && s.slots[i].Held? ==> SlotFate(s, r, i, now, ready, pids)
    ensures forall c :: c in r.fates ==> c in d.fates || c == s.accepted
  {
    forall i | 0 <= i < |s.slots| && s.slots[i].Held? ensures SlotFate(s, r, i, now, ready, pids) {
      assert SlotFate(s, d, i, now, ready, pids) && s.slots[i].conn != s.accepted;
    }
    hide SlotFate;
  }

  // ----- a whole pass -----

  /** The connection in the slot outlives a pass in which these descriptors are ready. */
  predicate Stays(slot: Slot, e: Event, ready: set<int>) {
    slot.Held? && slot.deadline >= e.scanTime && Busy(slot, e.time, ready)
  }

  ghost predicate FirstVacated(s: State, i: nat, e: Event, ready: set<int>) {
    && i < |s.slots| && !Stays(s.slots[i], e, ready)
    && forall j :: 0 <= j < i ==> Stays(s.slots[j], e, ready)
  }

  /** A pass that waits for descriptors and stays in the parent: when the listening socket is ready and accept
      returns a descriptor, exactly one connection more is counted. It stands in the first slot that is vacant
      after dispatch, with its descriptor, time and deadline, or has been refused when there is none. */
  lemma PassAccepts(s: State, e: Event)
    requires Inv(s) && Promised(s, e) && e.select.Ready? && Pass(s, e).Running?
    ensures var ready := e.select.ready; var r, accepting := Pass(s, e).state, s.listen in ready && e.acceptResult >= 0;
      && r.accepted == s.accepted + (if accepting then 1 else 0)
      && (forall i :: 0 <= i < MAX_DESCRIPTORS ==>
            r.slots[i] == if accepting && FirstVacated(s, i, e, ready)
                          then Held(e.acceptResult, e.insertTime + TIMEOUT_SECS, s.accepted, e.insertTime)
                          else if Stays(s.slots[i], e, ready) then s.slots[i] else Free)
      && (accepting && (forall i :: 0 <= i < MAX_DESCRIPTORS ==> Stays(s.slots[i], e, ready)) ==>
            s.accepted in r.fates && r.fates[s.accepted] == Refused && e.acceptResult !in r.open)
  {
    var s1, ready := Scanned(s, e), e.select.ready;
    ExpireFields(s, MAX_DESCRIPTORS, e.scanTime);
    ExpiresExactly(s, MAX_DESCRIPTORS, e.scanTime);
    assert forall i :: 0 <= i < MAX_DESCRIPTORS ==> (Busy(s1.slots[i], e.time, ready) <==> Stays(s.slots[i], e, ready));
    assert forall i :: 0 <= i < MAX_DESCRIPTORS && Stays(s.slots[i], e, ready) ==> s1.slots[i] == s.slots[i];
    assert s1.listen == s.listen && s1.accepted == s.accepted;
    hide Scanned, Process, Busy, Stays, Inv, Promised;
    assert forall i: nat :: FirstIdle(s1, i, e.time, ready) <==> FirstVacated(s, i, e, ready);
    hide FirstIdle, FirstVacated;
    ProcessIs(s1, ready, e);
  }

  /** The fates of such a pass: late in the scan is timed out, then as dispatch has it. */
  lemma PassFates(s: State, e: Event)
    requires Inv(s) && Promised(s, e) && e.select.Ready? && Pass(s, e).Running?
    ensures var r := Pass(s, e).state;
      && FatesKept(s, r)
      && forall i :: 0 <= i < MAX_DESCRIPTORS && s.slots[i].Held? ==>
           if s.slots[i].deadline < e.scanTime
           then s.slots[i].conn in r.fates && r.fates[s.slots[i].conn] == TimedOut
           else SlotFate(s, r, i, e.time, e.select.ready, e.pids)
  {
    var s1, p, r := Scanned(s, e), Process(Scanned(s, e), e.select.ready, e), Pass(s, e).state;
    ScanIs(s, e);
    assert r.fates == p.state.fates by { hide Scanned, Process; }
    hide Scanned, Pass, Process, Inv, Promised, SlotFate;
    ProcessFates(s1, e.select.ready, e);
    assert FatesKept(s, r);
    forall i | 0 <= i < MAX_DESCRIPTORS && s.slots[i].Held? && s.slots[i].deadline >= e.scanTime
      ensures SlotFate(s, r, i, e.time, e.select.ready, e.pids)
    {
      assert SlotFate(s1, p.state, i, e.time, e.select.ready, e.pids);
      SameFate(s1, p.state, s, r, i, e.time, e.select.ready, e.pids);
    }
    forall i | 0 <= i < MAX_DESCRIPTORS && s.slots[i].Held? && s.slots[i].deadline < e.scanTime
      ensures s.slots[i].conn in r.fates && r.fates[s.slots[i].conn] == TimedOut
    {
      assert s.slots[i].conn in s1.fates;
    }
  }

  lemma SameFate(s: State, r: State, s': State, r': State, i: nat, now: int, ready: set<int>, pids: seq<int>)
    requires i < |s.slots| == |pids| == |s'.slots| && s.slots[i] == s'.slots[i] && s.slots[i].Held?
    requires r.fates == r'.fates && SlotFate(s, r, i, now, ready, pids)
    ensures SlotFate(s', r', i, now, ready, pids)
  {
  }

  /** What the scan at the beginning of a pass leaves. */
  lemma ScanIs(s: State, e: Event)
    requires Inv(s) && Promised(s, e)
    ensures var s1 := Scanned(s, e);
      && Accounted(s1) && FatesKept(s, s1) && |s1.slots| == |s.slots| == MAX_DESCRIPTORS == |e.pids|
      && forall i :: 0 <= i < MAX_DESCRIPTORS && s.slots[i].Held? ==>
           if s.slots[i].deadline < e.scanTime
           then s.slots[i].conn in s1.fates && s1.fates[s.slots[i].conn] == TimedOut
           else s1.slots[i] == s.slots[i]
  {
    ExpiresExactly(s, MAX_DESCRIPTORS, e.scanTime);
    ExpireKeeps(s, MAX_DESCRIPTORS, e.scanTime, {s.listen});
    ExpireFates(s, MAX_DESCRIPTORS, e.scanTime);
    assert |s.slots| == MAX_DESCRIPTORS;
    var x := Expire(s, MAX_DESCRIPTORS, e.scanTime);
    ClockIrrelevant(x, e.scanTime);
    hide Expire, OwnsOpen, Accounted, Timed;
    assert forall i :: 0 <= i < MAX_DESCRIPTORS ==> x.slots[i] == Scanned(s, e).slots[i];
  }

  lemma ClockIrrelevant(s: State, clock: int)
    ensures Accounted(s) ==> Accounted(s.(clock := clock))
  {
  }

  /** A pass whose select returns without descriptors accepts nobody and frees exactly the expired slots. */
  lemma PassWithoutDescriptors(s: State, e: Event)
    requires Inv(s) && Promised(s, e) && !e.select.Ready? && Pass(s, e).Running?
    ensures var r := Pass(s, e).state;
      && r.accepted == s.accepted
      && forall i :: 0 <= i < MAX_DESCRIPTORS ==>
           r.slots[i] == if s.slots[i].Held? && s.slots[i].deadline >= e.scanTime then s.slots[i] else Free
  {
    ExpireFields(s, MAX_DESCRIPTORS, e.scanTime);
    ExpiresExactly(s, MAX_DESCRIPTORS, e.scanTime);
    hide Expire, Process;
  }

  // ----- how a pass ends -----

  predicate Forks(slot: Slot, e: Event, ready: set<int>, pid: int) {
    slot.Held? && slot.deadline >= e.scanTime && ForkReturnsZero(slot, e.time, ready, pid)
  }

  /** A pass gives up exactly on a broken select, ends in a child exactly when fork has returned 0 for a
      connection, and goes on listening exactly when neither an interruption nor a signal has stopped it. */
  lemma PassEnds(s: State, e: Event)
    requires Inv(s) && Promised(s, e)
    ensures Pass(s, e).Panicked? <==> e.select.Fatal?
    ensures Pass(s, e).InChild? <==>
      e.select.Ready? && exists i :: 0 <= i < MAX_DESCRIPTORS && Forks(s.slots[i], e, e.select.ready, e.pids[i])
    ensures Pass(s, e).Running? ==>
      (Pass(s, e).state.listening <==> s.listening && !e.signal && !e.select.Interrupted?)
  {
    var s1 := Scanned(s, e);
    ExpireFields(s, MAX_DESCRIPTORS, e.scanTime);
    ExpiresExactly(s, MAX_DESCRIPTORS, e.scanTime);
    if e.select.Ready? {
      ChildIff(s1, MAX_DESCRIPTORS, e.time, e.select.ready, e.pids);
      assert forall i :: 0 <= i < MAX_DESCRIPTORS ==>
        (ForkReturnsZero(s1.slots[i], e.time, e.select.ready, e.pids[i]) <==>
         Forks(s.slots[i], e, e.select.ready, e.pids[i]));
    }
    hide Expire, Dispatch, CloseSlots, ForkReturnsZero, Inv, Promised, Accept;
  }

  /** Once it has been interrupted or told to stop, the loop does not go round again: whatever would follow, it
      has stopped with nothing open and every remaining connection shut down. */
  lemma StopsAtOnce(s: State, e: Event, more: seq<Event>)
    requires Inv(s) && Promised(s, e) && s.listening && Pass(s, e).Running?
    requires forall k :: 0 <= k < |more| ==> |more[k].pids| == MAX_DESCRIPTORS
    requires e.signal || e.select.Interrupted?
    ensures var s1 := Pass(s, e).state; var o := Run(s1, more);
      && o.Stopped? && o.state.open == {}
      && forall i :: 0 <= i < |s1.slots| && s1.slots[i].Held? ==>
           s1.slots[i].conn in o.state.fates && o.state.fates[s1.slots[i].conn] == ShutDown
  {
    PassEnds(s, e);
    PassKeeps(s, e);
    var s1 := Pass(s, e).state;
    hide Pass;
    AllClosed(s1, {s1.listen});
    CloseFates(s1, MAX_DESCRIPTORS);
    hide CloseSlots, OwnsOpen, Accounted, Timed, Promised;
  }

  // ----- a run is its passes -----

  /** Every run goes through its events one by one for as long as it listens and each pass goes on: states[i] is
      the state before event i. It has stopped exactly at the first state that does not listen. */
  lemma {:induction false} RunIsPasses(s: State, events: seq<Event>) returns (states: seq<State>)
    requires |s.slots| == MAX_DESCRIPTORS && forall k :: 0 <= k < |events| ==> |events[k].pids| == MAX_DESCRIPTORS
    ensures 1 <= |states| <= |events| + 1 && states[0] == s
    ensures forall k :: 0 <= k < |states| ==> |states[k].slots| == MAX_DESCRIPTORS
    ensures forall k :: 0 <= k < |states| - 1 ==>
      states[k].listening && Pass(states[k], events[k]) == Running(states[k + 1])
    ensures var last := |states| - 1;
      match Run(s, events)
      case Running(r) => last == |events| && r == states[last] && r.listening
      case Stopped(r) => !states[last].listening && r == CloseSlots(states[last], MAX_DESCRIPTORS)
      case o => last < |events| && states[last].listening && o == Pass(states[last], events[last])
    decreases |events|
  {
    if events != [] {
      NoPassStops(s, events[0]);
    }
    hide Pass, CloseSlots;
    states := [s];
    if s.listening && events != [] && Pass(s, events[0]).Running? {
      var rest := RunIsPasses(Pass(s, events[0]).state, events[1..]);
      states := [s] + rest;
    }
  }

  lemma NoPassStops(s: State, e: Event)
    requires |s.slots| == MAX_DESCRIPTORS == |e.pids|
    ensures !Pass(s, e).Stopped?
  {
    hide Scanned, Process, CloseSlots;
  }
}
