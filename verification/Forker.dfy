/** src/forker.c: the arrays of the select loop, updated slot by slot, against its state machine. */
module Forker {
  import opened SelectLoop
  import opened PassOutcome

  /** The descriptor table the kernel keeps for this process. */
  class Os {
    var open: set<int>

    constructor (open: set<int>)
      ensures this.open == open
    {
      this.open := open;
    }

    method Close(fd: int)
      modifies this
      ensures open == old(open) - {fd}
    {
      open := open - {fd};
    }

    /** What accept does to the table when it returns fd. */
    method Open(fd: int)
      modifies this
      ensures open == old(open) + {fd}
    {
      open := open + {fd};
    }
  }

  /** A slot is -1 in both arrays exactly when it is free; otherwise they hold its descriptor and deadline. */
  ghost predicate Matches(slot: Slot, descriptor: int, timeoutEpoc: int) {
    match slot
    case Free => descriptor == timeoutEpoc == -1
    case Held(fd, deadline, _, _) => descriptor == fd && timeoutEpoc == deadline
  }

  class Forker {
    const descriptors: array<int>
    const timeoutEpocs: array<int>
    const acceptSocket: nat
    const os: Os
    var keepListening: bool
    ghost var state: State

    ghost predicate Valid()
      reads this, descriptors, timeoutEpocs, os
    {
      && descriptors != timeoutEpocs
      && |state.slots| == descriptors.Length == timeoutEpocs.Length == MAX_DESCRIPTORS
      && state.listen == acceptSocket && state.open == os.open && state.listening == keepListening
      && forall i :: 0 <= i < MAX_DESCRIPTORS ==> Matches(state.slots[i], descriptors[i], timeoutEpocs[i])
    }

    /** forker_listen up to the loop: the table is filled with -1. */
    constructor (acceptSocket: nat, ghost clock: int)
      ensures Valid() && state == Initial(acceptSocket, clock)
      ensures fresh(descriptors) && fresh(timeoutEpocs) && fresh(os)
    {
      descriptors := new int[MAX_DESCRIPTORS](_ => -1);
      timeoutEpocs := new int[MAX_DESCRIPTORS](_ => -1);
      os := new Os({acceptSocket});
      this.acceptSocket, keepListening := acceptSocket, true;
      state := Initial(acceptSocket, clock);
    }

    /** close(descriptors[i]); descriptors[i] = timeoutEpocs[i] = -1 */
    method CloseSlot(i: nat, ghost fate: Fate)
      requires Valid() && i < MAX_DESCRIPTORS && state.slots[i].Held?
      modifies this`state, descriptors, timeoutEpocs, os
      ensures Valid() && state == Release(old(state), i, fate)
    {
      os.Close(descriptors[i]);
      descriptors[i] := -1;
      timeoutEpocs[i] := -1;
      state := Release(state, i, fate);
    }

    /** initDescriptorSet: the set to wait for, and its greatest descriptor. */
    method InitDescriptorSet(epoc: int) returns (maxDescriptor: int, descriptorSet: set<int>)
      requires Valid()
      modifies this`state, descriptors, timeoutEpocs, os
      ensures Valid() && state == Expire(old(state), MAX_DESCRIPTORS, epoc)
      ensures descriptorSet == Offered(state, MAX_DESCRIPTORS)
      ensures forall fd :: fd in descriptorSet <==>
        fd == acceptSocket || (fd >= 0 && exists i :: 0 <= i < MAX_DESCRIPTORS && descriptors[i] == fd)
      ensures maxDescriptor in descriptorSet && forall fd :: fd in descriptorSet ==> fd <= maxDescriptor
    {
      descriptorSet := {acceptSocket};
      maxDescriptor := acceptSocket;
      for i := 0 to MAX_DESCRIPTORS
        invariant Valid() && state == Expire(old(state), i, epoc)
        invariant descriptorSet == Offered(state, i)
        invariant maxDescriptor in descriptorSet && forall fd :: fd in descriptorSet ==> fd <= maxDescriptor
      {
        ghost var before := state;
        if 0 <= descriptors[i] {
          if timeoutEpocs[i] < epoc {
            CloseSlot(i, TimedOut);
          } else {
            descriptorSet := descriptorSet + {descriptors[i]};
            if descriptors[i] > maxDescriptor {
              maxDescriptor := descriptors[i];
            }
          }
        }
        OfferedNext(before, state, i);
      }
    }

    /** insertDescriptor: 0 if there was a free slot for the socket, else -1. */
    method InsertDescriptor(sock: nat, now: int) returns (code: int)
      requires Valid()
      modifies this`state, descriptors, timeoutEpocs
      ensures var i := FirstFree(old(state.slots));
        if i < MAX_DESCRIPTORS then
          && code == 0 && Valid()
          && state == old(state).(slots :=
               old(state).slots[i := Held(sock, now + TIMEOUT_SECS, old(state.accepted), now)])
        else
          code == -1 && Valid() && state == old(state)
    {
      ghost var free := FirstFree(state.slots);
      for i := 0 to MAX_DESCRIPTORS
        invariant i <= free && Valid() && state == old(state)
      {
        if 0 > descriptors[i] {
          FirstFreeIsFree(state.slots, i);
          descriptors[i] := sock;
          timeoutEpocs[i] := now + TIMEOUT_SECS;
          state := state.(slots := state.slots[i := Held(sock, now + TIMEOUT_SECS, state.accepted, now)]);
          return 0;
        }
      }
      code := -1;
    }

    /** closeDescriptors */
    method CloseDescriptors()
      requires Valid()
      modifies this`state, descriptors, timeoutEpocs, os
      ensures Valid() && state == CloseSlots(old(state), MAX_DESCRIPTORS)
    {
      os.Close(acceptSocket);
      state := state.(open := state.open - {acceptSocket});
      for i := 0 to MAX_DESCRIPTORS
        invariant Valid() && state == CloseSlots(old(state), i)
      {
        if descriptors[i] > -1 {
          CloseSlot(i, ShutDown);
        }
      }
    }

    /** The loop of processFileDescriptors. In the parent it returns -1; in a forked child it returns the
        connection that child is to serve. */
    method DispatchSlots(ready: set<int>, epoc: int, pids: seq<int>) returns (child: int)
      requires Valid() && |pids| == MAX_DESCRIPTORS && forall fd :: fd in ready ==> fd >= 0
      modifies this`state, descriptors, timeoutEpocs, os
      ensures match Dispatch(old(state), MAX_DESCRIPTORS, epoc, ready, pids)
        case Parent(r) => child == -1 && Valid() && state == r
        case Child(fd, open) => child == fd && os.open == open
    {
      for i := 0 to MAX_DESCRIPTORS
        invariant Valid() && Dispatch(old(state), i, epoc, ready, pids) == Parent(state)
      {
        DispatchFinal(old(state), i + 1, epoc, ready, pids);
        if 0 <= descriptors[i] && timeoutEpocs[i] < epoc {
          CloseSlot(i, TimedOut);
        } else if descriptors[i] in ready {
          var readySocket := descriptors[i];
          var pid := pids[i];
          if 0 == pid {
            descriptors[i] := -1;
            timeoutEpocs[i] := -1;
            state := state.(slots := state.slots[i := Free]);
            CloseDescriptors();
            return readySocket;
          }
          CloseSlot(i, if 0 > pid then ForkFailed else HandedToChild);
        }
      }
      child := -1;
    }

    /** The accept part of processFileDescriptors. */
    method AcceptConnection(incomingSocket: int, sockoptOk: bool, now: int)
      requires Valid()
      modifies this`state, descriptors, timeoutEpocs, os
      ensures Valid() && state == Accept(old(state), incomingSocket, sockoptOk, now)
    {
      if 0 > incomingSocket {
        return;
      }
      os.Open(incomingSocket);
      if !sockoptOk {
        os.Close(incomingSocket);
      }
      state := state.(open := os.open);
      var code := InsertDescriptor(incomingSocket, now);
      if 0 != code {
        os.Close(incomingSocket);
        state := state.(open := os.open, fates := state.fates[state.accepted := Refused]);
      }
      state := state.(accepted := state.accepted + 1);
    }

    /** processFileDescriptors */
    method ProcessFileDescriptors(ready: set<int>, e: Event) returns (child: int)
      requires Valid() && |e.pids| == MAX_DESCRIPTORS && forall fd :: fd in ready ==> fd >= 0
      modifies this`state, descriptors, timeoutEpocs, os
      ensures match Process(old(state), ready, e)
        case Parent(r) => child == -1 && Valid() && state == r
        case Child(fd, open) => child == fd && os.open == open
      ensures child < 0 ==>
        var s, accepting := old(state), acceptSocket in ready && e.acceptResult >= 0;
        && state.accepted == s.accepted + (if accepting then 1 else 0)
        && (forall i :: 0 <= i < MAX_DESCRIPTORS ==>
              if accepting && FirstIdle(s, i, e.time, ready) then
                descriptors[i] == e.acceptResult && timeoutEpocs[i] == e.insertTime + TIMEOUT_SECS
              else if Busy(s.slots[i], e.time, ready) then
                descriptors[i] == old(descriptors[i]) && timeoutEpocs[i] == old(timeoutEpocs[i])
              else descriptors[i] == timeoutEpocs[i] == -1)
        && (accepting && (forall i :: 0 <= i < MAX_DESCRIPTORS ==> Busy(s.slots[i], e.time, ready)) ==>
              s.accepted in state.fates && state.fates[s.accepted] == Refused && e.acceptResult !in os.open)
    {
      if Process(state, ready, e).Parent? {
        ProcessIs(state, ready, e);
      }
      hide Dispatch, Busy, FirstIdle;
      child := DispatchSlots(ready, e.time, e.pids);
      if child >= 0 {
        return;
      }
      state := state.(clock := e.insertTime);
      if acceptSocket in ready {
        AcceptConnection(e.acceptResult, e.sockoptOk, e.insertTime);
      }
    }

    /** forker_stop: the signal handler. */
    method Stop()
      requires Valid()
      modifies this`state, this`keepListening
      ensures Valid() && state == old(state).(listening := false)
    {
      keepListening := false;
      state := state.(listening := false);
    }

    /** forker_loopRead, for as long as the environment provides events: how this process left the loop, or
        Running if the events ran out first. */
    method LoopRead(events: seq<Event>) returns (ghost outcome: Outcome, exited: bool, child: int)
      requires Valid() && forall k :: 0 <= k < |events| ==> |events[k].pids| == MAX_DESCRIPTORS
      requires forall k :: 0 <= k < |events| ==>
        events[k].select.Ready? ==> forall fd :: fd in events[k].select.ready ==> fd >= 0
      modifies this, descriptors, timeoutEpocs, os
      ensures outcome == Run(old(state), events)
      ensures match outcome
        case Running(r) => !exited && Valid() && state == r
        case Stopped(r) => exited && child == -1 && Valid() && state == r
        case InChild(fd, open) => exited && child == fd && os.open == open
        case Panicked(r) => exited && child == -1 && Valid() && state == r
    {
      ghost var begun := state;
      exited, child := true, -1;
      var k := 0;
      while keepListening && k < |events|
        invariant Valid() && k <= |events| && exited && child == -1
        invariant Run(begun, events) == Run(state, events[k..])
      {
        var e := events[k];
        assert events[k..][0] == e && events[k..][1..] == events[k + 1..];
        ghost var before := state;
        var maxDescriptor, descriptorSet := InitDescriptorSet(e.scanTime);
        state := state.(clock := e.scanTime);
        match e.select {
          case Fatal =>
            CloseDescriptors();
            return Panicked(state), true, -1;
          case Interrupted =>
            Stop();
          case OtherError =>
            if e.signal {
              Stop();
            }
          case Ready(ready) =>
            child := ProcessFileDescriptors(ready, e);
            if child >= 0 {
              return Run(begun, events), true, child;
            }
            if e.signal {
              Stop();
            }
        }
        k := k + 1;
      }
      if keepListening {
        return Running(state), false, -1;
      }
      CloseDescriptors();
      outcome := Stopped(state);
    }
  }

  /** forker_listen: the loop from its beginning, in a world that keeps its promises. A process that has left
      the loop as a parent holds no descriptor, every connection it accepted having met its fate; one that has
      left it as a child holds its own connection and nothing else. */
  method Listen(acceptSocket: nat, ghost clock: int, events: seq<Event>)
    returns (loop: Forker, ghost outcome: Outcome, exited: bool, child: int)
    requires forall k :: 0 <= k < |events| ==> |events[k].pids| == MAX_DESCRIPTORS
    requires forall k :: 0 <= k < |events| ==>
      events[k].select.Ready? ==> forall fd :: fd in events[k].select.ready ==> fd >= 0
    requires AllPromised(Initial(acceptSocket, clock), events)
    ensures outcome == Run(Initial(acceptSocket, clock), events)
    ensures match outcome
      case Running(r) => !exited && loop.Valid() && loop.state == r
      case Stopped(r) => exited && child == -1 && loop.Valid() && loop.state == r
      case InChild(fd, open) => exited && child == fd && loop.os.open == open
      case Panicked(r) => exited && child == -1 && loop.Valid() && loop.state == r
    ensures !exited ==> Inv(loop.state)
    ensures exited && child < 0 ==> loop.os.open == {} && Accounted(loop.state)
    ensures exited && child >= 0 ==> loop.os.open == {child} && child != acceptSocket
  {
    hide Run, AllPromised, OwnsOpen, Accounted, Timed;
    loop := new Forker(acceptSocket, clock);
    InitialInv(acceptSocket, clock);
    RunIsSafe(Initial(acceptSocket, clock), events);
    outcome, exited, child := loop.LoopRead(events);
  }

  /** Once a child has branched off, the rest of the table is not looked at; before that, slots follow. */
  lemma {:induction false} DispatchFinal(s: State, n: nat, now: int, ready: set<int>, pids: seq<int>)
    requires n <= |s.slots| == |pids|
    ensures Dispatch(s, n, now, ready, pids).Child? ==>
      Dispatch(s, |s.slots|, now, ready, pids) == Dispatch(s, n, now, ready, pids)
    decreases |s.slots| - n
  {
    if n < |s.slots| {
      DispatchFinal(s, n + 1, now, ready, pids);
    }
  }

  /** What the scan of one more slot adds to the set. */
  lemma OfferedNext(before: State, after: State, i: nat)
    requires i < |before.slots| == |after.slots| && before.listen == after.listen
    requires after.slots[..i] == before.slots[..i]
    ensures Offered(after, i + 1) ==
      Offered(before, i) + if after.slots[i].Held? then {after.slots[i].fd as int} else {}
  {
    assert forall j :: 0 <= j < i ==> after.slots[j] == before.slots[..i][j];
    if after.slots[i].Held? {
      assert after.slots[i].fd in Offered(after, i + 1);
    }
    forall o | o in Offered(before, i) ensures o in Offered(after, i + 1) {
      if j :| 0 <= j < i && before.slots[j].Held? && before.slots[j].fd == o {
        assert after.slots[j].fd == o;
      }
    }
  }
}
