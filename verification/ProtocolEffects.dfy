/** What each step of the monitor protocol does, told by what the processes hold, have queued
    and have received; and what that comes to over whole runs: a monitor that was set fires, a
    DOWN means that the target died, and messages to an alias arrive in order. */
module ProtocolEffects {
  import opened Prelude
  import opened Monitors
  import opened Protocol
  import opened ProtocolProof
  import opened ProtocolRuns

  /** Only these processes differ, in nothing but the process table. */
  ghost predicate OthersSame(s: State, s': State, these: set<Pid>) {
    s'.procs.Keys == s.procs.Keys && forall q :: q in s.procs && q !in these ==> s'.procs[q] == s.procs[q]
  }

  /** One signal more at the end of what is queued, and nothing else. */
  ghost predicate IsTold(p: Process, p': Process, sig: Signal) {
    Queue(p') == Queue(p) + [sig] && p'.entries == p.entries && p'.received == p.received
  }

  // ---- setting a monitor ----

  /** On another live process: the caller holds its half, and the alias if one was asked for;
      the target is told, and will count the caller among its watchers. */
  lemma MonitorIsSet(s: State, pid: Pid, target: Pid, name: Option<nat>, alias: Option<AliasType>)
    requires Inv(s) && pid in s.procs && target in s.procs && target != pid
    ensures var s', ref := Next(s, SetMonitor(pid, target, name, alias)), s.nextRef;
            && s'.nextRef == ref + 1 && OthersSame(s, s', {pid, target})
            && (forall h :: h in s'.procs[pid].entries.halves <==>
                  h in s.procs[pid].entries.halves || h == Monitoring(target, ref, name)
                  || (alias.Some? && h == Alias(ref, alias.value)))
            && (AliasActive(s'.procs[pid], ref) <==> alias.Some?)
            && s'.procs[pid].received == s.procs[pid].received && Queue(s'.procs[pid]) == Queue(s.procs[pid])
            && IsTold(s.procs[target], s'.procs[target], MonitorSignal(Monitored(pid, ref, alias.Some?)))
            && Watch(s'.procs[target]) == Watch(s.procs[target]) + {(pid, ref)}
  {
    hide Inv, Sane, Watch, AddAlias, Add, Unused;
    var p, half := s.procs[pid], Monitoring(target, s.nextRef, name);
    ProcessSane(s, pid);
    AddSane(p.entries, half);
    AddAliasMembers(Add(p.entries, half), s.nextRef, alias);
    UnusedHalves(s, pid);
    QueuePost(s.procs[target], MonitorSignal(Monitored(pid, s.nextRef, alias.Some?)));
    if alias.Some? { assert Alias(s.nextRef, alias.value).ref == s.nextRef; }
  }

  lemma UnusedHalves(s: State, pid: Pid)
    requires Inv(s) && pid in s.procs
    ensures forall h :: h in s.procs[pid].entries.halves ==> h.ref != s.nextRef
    ensures Downs(s.procs[pid].received, s.nextRef) == 0
  {
    hide Inv;
    NextIsUnused(s, pid);
  }

  /** On a process that is not there: one DOWN at once, no half, and only an explicit alias. */
  lemma MissingGivesDown(s: State, pid: Pid, target: Pid, name: Option<nat>, alias: Option<AliasType>)
    requires Inv(s) && pid in s.procs && target !in s.procs
    ensures var s', ref := Next(s, SetMonitor(pid, target, name, alias)), s.nextRef;
            && s'.nextRef == ref + 1 && OthersSame(s, s', {pid})
            && s'.procs[pid].received == s.procs[pid].received + [Down(ref)]
            && Downs(s'.procs[pid].received, ref) == 1 && !IsMonitoring(s'.procs[pid], ref)
            && (forall h :: h in s'.procs[pid].entries.halves <==>
                  h in s.procs[pid].entries.halves
                  || (alias == Some(ExplicitUnalias) && h == Alias(ref, ExplicitUnalias)))
            && Queue(s'.procs[pid]) == Queue(s.procs[pid])
  {
    hide Inv, Sane, AddAlias, Downs;
    var p := s.procs[pid];
    ProcessSane(s, pid);
    AddAliasMembers(p.entries, s.nextRef, if alias == Some(ExplicitUnalias) then alias else None);
    UnusedHalves(s, pid);
    ReceivedAppend(p.received, Down(s.nextRef), s.nextRef);
  }

  /** On itself: nothing but the reference is used up. */
  lemma OwnIsIgnored(s: State, pid: Pid, name: Option<nat>, alias: Option<AliasType>)
    requires pid in s.procs
    ensures var s' := Next(s, SetMonitor(pid, pid, name, alias)); s'.procs == s.procs && s'.nextRef == s.nextRef + 1
  {}

  // ---- taking it back ----

  /** Halves of a reference that go with a demonitor: all but an explicit alias. */
  ghost predicate Goes(h: Half, ref: Ref) { h.ref == ref && (h.Alias? ==> h.kind != ExplicitUnalias) }

  lemma DemonitorExact(e: Entries, ref: Ref)
    requires Sane(e) && OnePerRef(e.halves)
    ensures forall h :: h in Demonitor(e, ref).halves <==> h in e.halves && !Goes(h, ref)
  {
    hide RemoveMonitor, DropAlias;
    DropAliasMembers(e, ref);
    RemoveMonitorMembers(DropAlias(e, ref), ref);
  }

  /** The half goes, and with it an alias that is not explicit; the target is told, and will no
      longer count the caller among its watchers. Without such a half nothing happens. */
  lemma DemonitorRemoves(s: State, pid: Pid, ref: Ref)
    requires Inv(s) && pid in s.procs
    ensures var s', p := Next(s, CallDemonitor(pid, ref)), s.procs[pid];
            if !IsMonitoring(p, ref) then s' == s
            else
              exists h :: Holds(p, h) && h.ref == ref && h.target != pid && OthersSame(s, s', {pid, h.target})
                && (forall x :: x in s'.procs[pid].entries.halves <==> x in p.entries.halves && !Goes(x, ref))
                && s'.procs[pid].received == p.received && Queue(s'.procs[pid]) == Queue(p)
                && (h.target in s.procs ==>
                      && IsTold(s.procs[h.target], s'.procs[h.target], DemonitorSignal(ref))
                      && (pid, ref) !in Watch(s'.procs[h.target]))
  {
    hide Inv, Sane, Watch, Demonitor, MonitorHalf, Queue;
    var p := s.procs[pid];
    HalvesOf(s, pid);
    MonitorHalfMember(p.entries, ref);
    if IsMonitoring(p, ref) {
      var h :| h in p.entries.halves && h.Monitoring? && h.ref == ref;
      MonitorHalfIs(p.entries, h);
      EntryOk(s, pid, h);
      OwnerIsNotTarget(s, ref);
      DemonitorExact(p.entries, ref);
      assert Holds(p, h);
      QueueSame(p, p.(entries := Demonitor(p.entries, ref)));
      if h.target in s.procs { QueuePost(s.procs[h.target], DemonitorSignal(ref)); }
    }
  }

  lemma HalvesOf(s: State, pid: Pid)
    requires Inv(s) && pid in s.procs
    ensures Sane(s.procs[pid].entries) && OnePerRef(s.procs[pid].entries.halves)
  {
    hide WatchersAlive, DownsFinal, ReceivedOk;
    ProcessSane(s, pid);
    RefsDetermine(s, pid, s.procs[pid].entries);
  }

  lemma OwnerIsNotTarget(s: State, ref: Ref)
    requires Inv(s) && ref in s.monitors
    ensures s.monitors[ref].owner != s.monitors[ref].target
  {}

  // ---- aliases ----

  lemma AliasIsMade(s: State, pid: Pid, kind: AliasType)
    requires Inv(s) && pid in s.procs
    ensures var s', ref := Next(s, MakeAlias(pid, kind)), s.nextRef;
            && s'.nextRef == ref + 1 && OthersSame(s, s', {pid})
            && (forall h :: h in s'.procs[pid].entries.halves <==>
                  h in s.procs[pid].entries.halves || h == Alias(ref, kind))
            && s'.procs[pid].received == s.procs[pid].received && Queue(s'.procs[pid]) == Queue(s.procs[pid])
  {
    hide Inv, Sane;
    ProcessSane(s, pid);
    AddSane(s.procs[pid].entries, Alias(s.nextRef, kind));
  }

  /** Of whatever kind the alias was, it is gone, and nothing else. */
  lemma UnaliasRemoves(s: State, pid: Pid, ref: Ref)
    requires Inv(s) && pid in s.procs
    ensures var s', p := Next(s, CallUnalias(pid, ref)), s.procs[pid];
            && OthersSame(s, s', {pid}) && s'.nextRef == s.nextRef
            && (forall h :: h in s'.procs[pid].entries.halves <==>
                  h in p.entries.halves && !(h.Alias? && h.ref == ref))
            && s'.procs[pid].received == p.received && Queue(s'.procs[pid]) == Queue(p)
  {
    hide Inv, Sane, Unalias, FindAlias;
    var p := s.procs[pid];
    HalvesOf(s, pid);
    AliasMember(p.entries, ref);
    if FindAlias(p.entries, ref).Some? { UnaliasExact(p.entries, ref); }
  }

  lemma UnaliasExact(e: Entries, ref: Ref)
    requires Sane(e) && OnePerRef(e.halves) && FindAlias(e, ref).Some?
    ensures forall h :: h in Unalias(e, ref).halves <==> h in e.halves && !(h.Alias? && h.ref == ref)
  {
    hide Sane, Unalias;
    ShortcutIs(e, ref);
    AliasMember(e, ref);
    UnaliasSane(e, ref);
  }

  lemma ShortcutIs(e: Entries, ref: Ref)
    requires Sane(e)
    ensures FindAlias(e, ref) == WalkAlias(e, ref)
  {
    ShortcutAgrees(e, ref);
  }

  lemma SendIsQueued(s: State, pid: Pid, ref: Ref, payload: nat)
    ensures var s' := Next(s, SendToAlias(pid, ref, payload));
            if pid !in s.procs then s' == s
            else OthersSame(s, s', {pid}) && s'.nextRef == s.nextRef
                 && IsTold(s.procs[pid], s'.procs[pid], AliasMessageSignal(ref, payload))
  {
    if pid in s.procs { QueuePost(s.procs[pid], AliasMessageSignal(ref, payload)); }
  }

  // ---- handling what is queued ----

  lemma DetachTakesAll(s: State, pid: Pid)
    requires Enabled(s, Detach(pid))
    ensures var s' := Next(s, Detach(pid));
            && OthersSame(s, s', {pid}) && s'.procs[pid].batch == Queue(s.procs[pid]) && s'.procs[pid].inbox == []
            && s'.procs[pid].pending == [] && s'.procs[pid].entries == s.procs[pid].entries
            && s'.procs[pid].received == s.procs[pid].received
  {}

  /** A message to an active alias is received with its payload; one to a reply alias takes the
      alias and its monitor along. A message to an alias that is not active is dropped. */
  lemma MessageIsDelivered(s: State, pid: Pid)
    requires Inv(s) && Enabled(s, Split(pid)) && s.procs[pid].batch[0].AliasMessageSignal?
    ensures var s', p := Next(s, Split(pid)), s.procs[pid]; var ref, payload := p.batch[0].ref, p.batch[0].payload;
            && pid in s'.procs && s'.procs[pid].batch == p.batch[1..] && s'.procs[pid].pending == p.pending
            && s'.procs[pid].inbox == p.inbox
            && s'.procs[pid].received == p.received + (if AliasActive(p, ref) then [ToAlias(ref, payload)] else [])
            && (forall h :: h in s'.procs[pid].entries.halves <==>
                  h in p.entries.halves && !(Alias(ref, ReplyDemonitor) in p.entries.halves && Goes(h, ref)))
  {
    hide Inv, Sane, FindAlias, Demonitor, MonitorHalf, Goes;
    var p := s.procs[pid];
    var ref := p.batch[0].ref;
    HalvesOf(s, pid);
    AliasMember(p.entries, ref);
    DemonitorExact(p.entries, ref);
    MonitorHalfMember(p.entries, ref);
    assert p.received + [] == p.received;
    var half := MonitorHalf(p.entries, ref);
    if half.Some? && half.value.Monitoring? {
      EntryOk(s, pid, half.value);
      OwnerIsNotTarget(s, ref);
    }
  }

  /** Any other signal waits for the second pass; a DOWN takes an alias along that is not
      explicit. */
  lemma SignalIsSetAside(s: State, pid: Pid)
    requires Inv(s) && Enabled(s, Split(pid)) && !s.procs[pid].batch[0].AliasMessageSignal?
    ensures var s', p := Next(s, Split(pid)), s.procs[pid]; var sig := p.batch[0];
            && OthersSame(s, s', {pid}) && Queue(s'.procs[pid]) == Queue(p)
            && s'.procs[pid].pending == p.pending + [sig] && s'.procs[pid].received == p.received
            && (forall h :: h in s'.procs[pid].entries.halves <==>
                  h in p.entries.halves && !(sig.MonitorDownSignal? && h.Alias? && Goes(h, sig.ref)))
  {
    hide Inv, Sane, DropAlias;
    var p := s.procs[pid];
    var sig := p.batch[0];
    HalvesOf(s, pid);
    if sig.MonitorDownSignal? { DropAliasMembers(p.entries, sig.ref); }
    var p' := Next(s, Split(pid)).procs[pid];
    assert p.batch == [sig] + p.batch[1..];
    assert Queue(p') == p.pending + [sig] + p.batch[1..] + p.inbox == Queue(p);
  }

  /** A DOWN is delivered exactly if the monitor on that process still stands, and takes it and
      an alias along that is not explicit. */
  lemma DownIsDelivered(s: State, pid: Pid, ref: Ref, from: Pid)
    requires Inv(s) && Enabled(s, Handle(pid)) && s.procs[pid].pending[0] == MonitorDownSignal(ref, from)
    ensures var s', p := Next(s, Handle(pid)), s.procs[pid];
            && OthersSame(s, s', {pid}) && Queue(p) == [MonitorDownSignal(ref, from)] + Queue(s'.procs[pid])
            && s'.procs[pid].received == p.received + (if IsMonitoring(p, ref) then [Down(ref)] else [])
            && (forall h :: h in s'.procs[pid].entries.halves <==>
                  h in p.entries.halves && !(IsMonitoring(p, ref) && Goes(h, ref)))
  {
    hide WatchersAlive, DownsFinal, Sane, AfterDown, ReceivedOk, Queue;
    var p := s.procs[pid];
    HalvesOf(s, pid);
    DownIsFrom(s, pid);
    AfterDownExact(p.entries, ref, from);
    PendingHead(p, p.(pending := p.pending[1..]));
    PendingHead(p, Next(s, Handle(pid)).procs[pid]);
    assert p.received + [] == p.received;
    if IsMonitoring(p, ref) {
      var h :| h in p.entries.halves && h.Monitoring? && h.ref == ref;
      EntryOk(s, pid, h);
      assert h.target == from;
    }
  }

  /** A queued DOWN is about a monitor of the process, and from its target. */
  lemma DownIsFrom(s: State, pid: Pid)
    requires Inv(s) && pid in s.procs && |s.procs[pid].pending| > 0 && s.procs[pid].pending[0].MonitorDownSignal?
    ensures var sig := s.procs[pid].pending[0];
            sig.ref in s.monitors && s.monitors[sig.ref].owner == pid && s.monitors[sig.ref].target == sig.from
  {
    var p := s.procs[pid];
    assert ProcessOk(s, pid, p) && p.pending[0] in Queue(p);
    assert SignalOk(s, pid, p.pending[0]);
  }

  lemma AfterDownExact(e: Entries, ref: Ref, from: Pid)
    requires Sane(e) && OnePerRef(e.halves)
    ensures AfterDown(e, ref, from).Some? <==>
              exists h :: h in e.halves && h.Monitoring? && h.ref == ref && h.target == from
    ensures AfterDown(e, ref, from).Some? ==>
              forall h :: h in AfterDown(e, ref, from).value.halves <==> h in e.halves && !Goes(h, ref)
  {
    var i := FindIndex(e.halves, MonitoringKey(ref, from));
    if i < |e.halves| {
      AliasesWithout(e.halves, i);
      WithoutMember(e.halves, i);
      assert e.halves[i] in e.halves;
      RestAfterDown(e, e.halves[i], e.(halves := Without(e.halves, i)), ref);
    } else {
      forall h | h in e.halves && h.Monitoring? && h.ref == ref ensures h.target != from {
        var k :| 0 <= k < |e.halves| && e.halves[k] == h;
        assert !Matches(e.halves[k], MonitoringKey(ref, from));
      }
    }
  }

  lemma RestAfterDown(e: Entries, h: Half, e1: Entries, ref: Ref)
    requires OnePerRef(e.halves) && h in e.halves && h.Monitoring? && h.ref == ref
    requires Sane(e1) && forall x :: x in e1.halves <==> x in e.halves && x != h
    ensures forall x :: x in DropAlias(e1, ref).halves <==> x in e.halves && !Goes(x, ref)
  {
    hide DropAlias, Sane;
    DropAliasMembers(e1, ref);
  }

  /** A monitor set by another is held and counted; one taken back is not any more. */
  lemma SignalIsApplied(s: State, pid: Pid)
    requires Inv(s) && Enabled(s, Handle(pid)) && !s.procs[pid].pending[0].MonitorDownSignal?
    ensures var s', p := Next(s, Handle(pid)), s.procs[pid]; var sig := p.pending[0];
            && OthersSame(s, s', {pid}) && Queue(p) == [sig] + Queue(s'.procs[pid])
            && s'.procs[pid].received == p.received
            && (forall h :: h in s'.procs[pid].entries.halves <==>
                  || (sig.MonitorSignal? && h == sig.half)
                  || (h in p.entries.halves && !(sig.DemonitorSignal? && Goes(h, sig.ref))))
  {
    hide Inv, Sane, Demonitor, Add, Queue;
    var p := s.procs[pid];
    var sig := p.pending[0];
    HalvesOf(s, pid);
    PendingHead(p, Next(s, Handle(pid)).procs[pid]);
    match sig
    case MonitorSignal(h) => AddSane(p.entries, h);
    case DemonitorSignal(ref) => DemonitorExact(p.entries, ref);
    case _ =>
  }

  // ---- the end of a process ----

  /** A process that ends is gone; each watcher is sent its DOWN, each live target is told, and
      nobody gets anything else. */
  lemma TerminateTells(s: State, pid: Pid, r: Pid)
    requires Inv(s) && Enabled(s, Terminate(pid)) && r in s.procs && r != pid
    ensures var s', p := Next(s, Terminate(pid)), s.procs[r];
            && s'.procs.Keys == s.procs.Keys - {pid}
            && s'.procs[r].entries == p.entries && s'.procs[r].received == p.received
            && exists told :: Queue(s'.procs[r]) == Queue(p) + told
                 && forall sig :: sig in told <==>
                      match sig
                      case MonitorDownSignal(ref, from) => from == pid && (r, ref) in Watch(s.procs[pid])
                      case DemonitorSignal(ref) =>
                        exists h :: Holds(s.procs[pid], h) && h.target == r && h.ref == ref
                      case _ => false
  {
    hide Inv, Watch, Farewell, Drain;
    var e := Drain(s.procs[pid].entries, s.procs[pid].inbox);
    var told := Farewell(pid, e.halves, r);
    assert Queue(Next(s, Terminate(pid)).procs[r]) == Queue(s.procs[r]) + told;
    forall sig: Signal
      ensures sig in told <==>
                match sig
                case MonitorDownSignal(ref, from) => from == pid && (r, ref) in Watch(s.procs[pid])
                case DemonitorSignal(ref) => exists h :: Holds(s.procs[pid], h) && h.target == r && h.ref == ref
                case _ => false
    {
      FarewellMembers(pid, e.halves, r, sig);
      FarewellIs(s, pid, r, sig);
    }
  }

  lemma FarewellIs(s: State, pid: Pid, r: Pid, sig: Signal)
    requires Inv(s) && Enabled(s, Terminate(pid))
    ensures FarewellFor(pid, Drain(s.procs[pid].entries, s.procs[pid].inbox).halves, r, sig) <==>
              match sig
              case MonitorDownSignal(ref, from) => from == pid && (r, ref) in Watch(s.procs[pid])
              case DemonitorSignal(ref) => exists h :: Holds(s.procs[pid], h) && h.target == r && h.ref == ref
              case _ => false
  {
    hide WatchersAlive, DownsFinal, ReceivedOk, HistoryOk, Drain, EntriesOk, SignalOk;
    var p := s.procs[pid];
    assert ProcessOk(s, pid, p);
    assert Queue(p) == p.inbox;
    DrainWatchers(s, pid, p.entries, p.inbox);
    DrainAddsNone(s, pid, p.entries, p.inbox);
    var halves := Drain(p.entries, p.inbox).halves;
    assert Watch(p) == Watchers(halves);
    assert forall h :: Holds(p, h) <==> h in halves && h.Monitoring?;
  }

  lemma {:induction false} DrainAddsNone(s: State, pid: Pid, e: Entries, q: seq<Signal>)
    requires HistoryOk(s) && EntriesOk(s, pid, e) && (forall sig :: sig in q ==> SignalOk(s, pid, sig))
    ensures forall h :: h in Drain(e, q).halves && h.Monitoring? ==> h in e.halves
    decreases |q|
  {
    if |q| > 0 {
      ApplyWatchers(s, pid, e, q[0]);
      DrainAddsNone(s, pid, Apply(e, q[0]), q[1..]);
    }
  }

  lemma SpawnStarts(s: State, pid: Pid)
    requires Enabled(s, Spawn(pid))
    ensures var s' := Next(s, Spawn(pid));
            && s'.procs.Keys == s.procs.Keys + {pid} && (forall q :: q in s.procs ==> s'.procs[q] == s.procs[q])
            && s'.procs[pid].entries.halves == [] && Queue(s'.procs[pid]) == [] && s'.procs[pid].received == []
  {}

  // ---- from the call to its DOWN ----

  /** What a reference was made an alias for does not change. */
  lemma AliasesKept(s: State, step: Step, ref: Ref)
    requires Enabled(s, step) && ref < s.nextRef
    ensures ref < Next(s, step).nextRef
    ensures ref in Next(s, step).aliases <==> ref in s.aliases
    ensures ref in s.aliases ==> Next(s, step).aliases[ref] == s.aliases[ref]
  {
    hide Farewell, Drain, MonitorHalf, FindAlias, Demonitor, Unalias, AfterDown, Apply, DropAlias, Add, AddAlias, Post;
  }

  lemma {:induction false} RunAliasesKept(states: seq<State>, steps: seq<Step>, i: nat, j: nat, ref: Ref)
    requires Run(states, steps) && i <= j < |states| && ref < states[i].nextRef
    ensures ref < states[j].nextRef
    ensures ref in states[j].aliases <==> ref in states[i].aliases
    ensures ref in states[i].aliases ==> states[j].aliases[ref] == states[i].aliases[ref]
    decreases j
  {
    hide Next, Enabled;
    if i < j {
      RunAliasesKept(states, steps, i, j - 1, ref);
      assert Enabled(states[j - 1], steps[j - 1]) && states[j] == Next(states[j - 1], steps[j - 1]);
      AliasesKept(states[j - 1], steps[j - 1], ref);
    }
  }

  /** The aliases on record after a monitor was set. */
  lemma AliasNoted(s: State, pid: Pid, target: Pid, name: Option<nat>, alias: Option<AliasType>)
    requires Inv(s) && pid in s.procs && target in s.procs && target != pid
    ensures var s' := Next(s, SetMonitor(pid, target, name, alias));
            && (s.nextRef in s'.aliases <==> alias.Some?)
            && (alias.Some? ==> s'.aliases[s.nextRef].kind == alias.value)
  {
    hide Inv, Add, AddAlias;
    NextIsUnused(s, pid);
  }

  /** From the call that sets a monitor on another process, alive or not: once the target is
      gone and the caller has handled everything, exactly one DOWN has come, unless the caller
      took the monitor back or got the reply that ends it. */
  lemma RunMonitorFires(states: seq<State>, steps: seq<Step>, i: nat, j: nat, pid: Pid, target: Pid,
                        name: Option<nat>, alias: Option<AliasType>)
    requires Run(states, steps) && i < j < |states| && steps[i] == SetMonitor(pid, target, name, alias) && target != pid
    requires Lives(states, i + 1, j, pid) && CallDemonitor(pid, states[i].nextRef) !in steps[i + 1..j]
    requires target !in states[j].procs && Queue(states[j].procs[pid]) == []
    ensures var got, ref := states[j].procs[pid].received, states[i].nextRef;
            || Downs(got, ref) == 1
            || (target in states[i].procs && alias == Some(ReplyDemonitor) && ToAliases(got, ref) == 1)
  {
    hide Inv, Standing, Next, Enabled, Queue, Watch, Downs, ToAliases, IsTold, OthersSame, IsMonitoring, AliasActive;
    var s, ref := states[i], states[i].nextRef;
    RunStanding(states, steps, i);
    assert Enabled(s, steps[i]) && states[i + 1] == Next(s, steps[i]);
    CallerIsThere(s, pid, target, name, alias);
    if target in s.procs {
      MonitorIsSet(s, pid, target, name, alias);
      AliasNoted(s, pid, target, name, alias);
      RunDownArrives(states, steps, i + 1, j, pid, Monitoring(target, ref, name));
      RunAliasesKept(states, steps, i + 1, j, ref);
    } else {
      MissingGivesDown(s, pid, target, name, alias);
      RunQuiet(states, steps, i + 1, j, pid, ref);
    }
  }

  lemma CallerIsThere(s: State, pid: Pid, target: Pid, name: Option<nat>, alias: Option<AliasType>)
    requires Enabled(s, SetMonitor(pid, target, name, alias))
    ensures pid in s.procs
  {}

  // ---- a DOWN means a death ----

  /** Nobody but a process that ends queues a DOWN from it. */
  lemma DownIsQueuedBy(s: State, step: Step, q: Pid, ref: Ref, from: Pid)
    requires Inv(s) && Enabled(s, step) && q in s.procs && q in Next(s, step).procs
    requires DownQueued(Next(s, step).procs[q], ref, from) && step != Terminate(from)
    ensures DownQueued(s.procs[q], ref, from)
  {
    hide Inv, Queue, DoMonitor, DoDemonitor, DoSplit, DoHandle, Farewell, Drain, Unalias, FindAlias, Add;
    match step
    case Terminate(pid) => FarewellDowns(s, pid, q, ref, from);
    case Split(pid) => SplitQueue(s, pid, q, ref, from);
    case Handle(pid) => HandleQueue(s, pid, q, ref, from);
    case CallDemonitor(pid, r) => DemonitorQueue(s, pid, r, q, ref, from);
    case SetMonitor(pid, target, name, alias) => MonitorQueue(s, pid, target, name, alias, q, ref, from);
    case _ => OtherQueue(s, step, q, ref, from);
  }

  /** Posting any other signal queues no DOWN. */
  lemma PostQueue(procs: map<Pid, Process>, t: Pid, sig: Signal, q: Pid, ref: Ref, from: Pid)
    requires q in procs && !sig.MonitorDownSignal? && DownQueued(Post(procs, t, sig)[q], ref, from)
    ensures DownQueued(procs[q], ref, from)
  {
    if t in procs && t == q { QueuePost(procs[t], sig); }
  }

  lemma MonitorQueue(s: State, pid: Pid, target: Pid, name: Option<nat>, alias: Option<AliasType>, q: Pid, ref: Ref,
                     from: Pid)
    requires pid in s.procs && q in s.procs && DownQueued(DoMonitor(s, pid, target, name, alias).procs[q], ref, from)
    ensures DownQueued(s.procs[q], ref, from)
  {
    hide Post, Add, AddAlias;
    if target in s.procs && target != pid && q != pid {
      PostQueue(s.procs, target, MonitorSignal(Monitored(pid, s.nextRef, alias.Some?)), q, ref, from);
    }
  }

  lemma DemonitorQueue(s: State, pid: Pid, r: Ref, q: Pid, ref: Ref, from: Pid)
    requires pid in s.procs && q in s.procs && q in DoDemonitor(s, pid, r).procs
    requires DownQueued(DoDemonitor(s, pid, r).procs[q], ref, from)
    ensures DownQueued(s.procs[q], ref, from)
  {
    hide Post, Demonitor, MonitorHalf;
    var p := s.procs[pid];
    var half := MonitorHalf(p.entries, r);
    if half.Some? && half.value.Monitoring? {
      PostQueue(s.procs[pid := p.(entries := Demonitor(p.entries, r))], half.value.target, DemonitorSignal(r), q, ref,
        from);
    }
  }

  lemma HandleQueue(s: State, pid: Pid, q: Pid, ref: Ref, from: Pid)
    requires Enabled(s, Handle(pid)) && q in s.procs && DownQueued(DoHandle(s, pid).procs[q], ref, from)
    ensures DownQueued(s.procs[q], ref, from)
  {
    hide AfterDown, Apply;
  }

  lemma OtherQueue(s: State, step: Step, q: Pid, ref: Ref, from: Pid)
    requires Enabled(s, step) && q in s.procs && q in Next(s, step).procs
    requires step.Spawn? || step.MakeAlias? || step.CallUnalias? || step.SendToAlias? || step.Detach?
    requires DownQueued(Next(s, step).procs[q], ref, from)
    ensures DownQueued(s.procs[q], ref, from)
  {
    hide Unalias, FindAlias, Add;
  }

  lemma FarewellDowns(s: State, pid: Pid, q: Pid, ref: Ref, from: Pid)
    requires Enabled(s, Terminate(pid)) && q in s.procs && q != pid && from != pid
    requires DownQueued(Next(s, Terminate(pid)).procs[q], ref, from)
    ensures DownQueued(s.procs[q], ref, from)
  {
    hide Drain, Farewell;
    FarewellMembers(pid, Drain(s.procs[pid].entries, s.procs[pid].inbox).halves, q, MonitorDownSignal(ref, from));
  }

  lemma SplitQueue(s: State, pid: Pid, q: Pid, ref: Ref, from: Pid)
    requires Enabled(s, Split(pid)) && q in s.procs && q in DoSplit(s, pid).procs
    requires DownQueued(DoSplit(s, pid).procs[q], ref, from)
    ensures DownQueued(s.procs[q], ref, from)
  {
    hide DropAlias, DoAliasMessage;
    var p := s.procs[pid];
    var sig := p.batch[0];
    assert p.batch == [sig] + p.batch[1..];
    if sig.AliasMessageSignal? { MessageQueue(s, pid, sig.ref, sig.payload, q, ref, from); }
  }

  lemma MessageQueue(s: State, pid: Pid, r: Ref, payload: nat, q: Pid, ref: Ref, from: Pid)
    requires pid in s.procs && |s.procs[pid].batch| > 0
    requires q in s.procs && q in DoAliasMessage(s, pid, r, payload).procs
    requires DownQueued(DoAliasMessage(s, pid, r, payload).procs[q], ref, from)
    ensures DownQueued(s.procs[q], ref, from)
  {
    hide MonitorHalf, FindAlias, Demonitor, Post;
    var p := s.procs[pid].(batch := s.procs[pid].batch[1..]);
    assert s.procs[pid].batch == [s.procs[pid].batch[0]] + p.batch;
    var p' := p.(received := p.received + [ToAlias(r, payload)], entries := Demonitor(p.entries, r));
    var half := MonitorHalf(p.entries, r);
    var found := FindAlias(p.entries, r);
    if half.Some? && half.value.Monitoring? && found.Some? && found.value.Alias? && found.value.kind == ReplyDemonitor {
      PostQueue(s.procs[pid := p'], half.value.target, DemonitorSignal(r), q, ref, from);
    }
  }

  /** What a reference was made a monitor for does not change. */
  lemma MonitorsKept(s: State, step: Step, ref: Ref)
    requires Enabled(s, step) && ref < s.nextRef && ref in s.monitors
    ensures ref < Next(s, step).nextRef && ref in Next(s, step).monitors
    ensures Next(s, step).monitors[ref] == s.monitors[ref]
  {
    hide Farewell, Drain, MonitorHalf, FindAlias, Demonitor, Unalias, AfterDown, Apply, DropAlias, Add, AddAlias, Post;
  }

  ghost predicate NoDownYet(s: State, pid: Pid, ref: Ref, target: Pid) {
    && pid in s.procs && ref < s.nextRef && ref in s.monitors && s.monitors[ref].target == target
    && !DownQueued(s.procs[pid], ref, target) && Downs(s.procs[pid].received, ref) == 0
  }

  lemma NoDownStep(s: State, step: Step, pid: Pid, ref: Ref, target: Pid)
    requires Inv(s) && Enabled(s, step) && NoDownYet(s, pid, ref, target) && pid in Next(s, step).procs
    requires step != Terminate(target)
    ensures NoDownYet(Next(s, step), pid, ref, target)
  {
    hide Inv, Next, Enabled, DownQueued, Downs;
    MonitorsKept(s, step, ref);
    if DownQueued(Next(s, step).procs[pid], ref, target) { DownIsQueuedBy(s, step, pid, ref, target); }
    DownsStep(s, step, pid, ref, target);
  }

  /** The count of DOWNs grows only by one that was queued, or for a new reference. */
  lemma DownsStep(s: State, step: Step, pid: Pid, ref: Ref, target: Pid)
    requires Inv(s) && Enabled(s, step) && NoDownYet(s, pid, ref, target) && pid in Next(s, step).procs
    ensures Downs(Next(s, step).procs[pid].received, ref) == 0
  {
    hide Inv, MonitorHalf, FindAlias, Demonitor, Unalias, AfterDown, Apply, DropAlias, Add, AddAlias, Farewell, Drain,
      Downs;
    var p := s.procs[pid];
    if step.pid != pid || step.SendToAlias? || step.Detach? {
      OthersUntouched(s, step, pid);
    } else {
      match step
      case SetMonitor(_, _, _, _) => ReceivedAppend(p.received, Down(s.nextRef), ref);
      case Split(_) =>
        if p.batch[0].AliasMessageSignal? {
          ReceivedAppend(p.received, ToAlias(p.batch[0].ref, p.batch[0].payload), ref);
        }
      case Handle(_) =>
        var sig := p.pending[0];
        if sig.MonitorDownSignal? {
          assert sig in Queue(p);
          ReceivedAppend(p.received, Down(sig.ref), ref);
          DownIsFrom(s, pid);
        }
      case _ =>
    }
  }

  lemma {:induction false} RunNoDownYet(states: seq<State>, steps: seq<Step>, i: nat, j: nat, pid: Pid, ref: Ref,
                                        target: Pid)
    requires Run(states, steps) && i <= j < |states| && Lives(states, i, j, pid)
    requires NoDownYet(states[i], pid, ref, target) && Terminate(target) !in steps[i..j]
    ensures NoDownYet(states[j], pid, ref, target)
    decreases j
  {
    hide Inv, Standing, Next, Enabled, NoDownYet;
    if i < j {
      assert steps[i..j] == steps[i..j - 1] + [steps[j - 1]];
      RunNoDownYet(states, steps, i, j - 1, pid, ref, target);
      RunStanding(states, steps, j - 1);
      assert Enabled(states[j - 1], steps[j - 1]) && states[j] == Next(states[j - 1], steps[j - 1]);
      NoDownStep(states[j - 1], steps[j - 1], pid, ref, target);
    }
  }

  /** A DOWN of a monitor that was set on a live process comes only if that process has ended
      since. */
  lemma RunDownMeansDeath(states: seq<State>, steps: seq<Step>, i: nat, j: nat, pid: Pid, target: Pid,
                          name: Option<nat>, alias: Option<AliasType>)
    requires Run(states, steps) && i < j < |states| && steps[i] == SetMonitor(pid, target, name, alias)
    requires target in states[i].procs && target != pid && Lives(states, i + 1, j, pid)
    requires Downs(states[j].procs[pid].received, states[i].nextRef) > 0
    ensures Terminate(target) in steps[i + 1..j]
  {
    hide Inv, Standing, Next, Enabled, Downs, NoDownYet;
    RunStanding(states, steps, i);
    assert Enabled(states[i], steps[i]) && states[i + 1] == Next(states[i], steps[i]);
    CallerIsThere(states[i], pid, target, name, alias);
    NoDownAtFirst(states[i], pid, target, name, alias);
    if Terminate(target) !in steps[i + 1..j] {
      RunNoDownYet(states, steps, i + 1, j, pid, states[i].nextRef, target);
      NoneCounted(states[j], pid, states[i].nextRef, target);
    }
  }

  lemma NoneCounted(s: State, pid: Pid, ref: Ref, target: Pid)
    requires NoDownYet(s, pid, ref, target)
    ensures Downs(s.procs[pid].received, ref) == 0
  {}

  lemma NoDownAtFirst(s: State, pid: Pid, target: Pid, name: Option<nat>, alias: Option<AliasType>)
    requires Inv(s) && pid in s.procs && target in s.procs && target != pid
    ensures NoDownYet(Next(s, SetMonitor(pid, target, name, alias)), pid, s.nextRef, target)
  {
    hide Inv, Add, AddAlias;
    NextIsUnused(s, pid);
    assert !DownQueued(s.procs[pid], s.nextRef, target);
  }

  // ---- messages to an alias arrive in order ----

  /** Payloads received through an alias. */
  ghost function Payloads(msgs: seq<Message>, ref: Ref): seq<nat> {
    if |msgs| == 0 then []
    else
      var m := msgs[|msgs| - 1];
      Payloads(msgs[..|msgs| - 1], ref) + if m.ToAlias? && m.ref == ref then [m.payload] else []
  }

  /** Payloads of queued messages to an alias. */
  ghost function Waiting(q: seq<Signal>, ref: Ref): seq<nat> {
    if |q| == 0 then []
    else (if q[0].AliasMessageSignal? && q[0].ref == ref then [q[0].payload] else []) + Waiting(q[1..], ref)
  }

  /** All payloads to an alias, received and still to come. */
  ghost function Stream(p: Process, ref: Ref): seq<nat> { Payloads(p.received, ref) + Waiting(p.batch + p.inbox, ref) }

  /** What a step sends to an alias. */
  ghost function Sent(step: Step, pid: Pid, ref: Ref): seq<nat> {
    if step.SendToAlias? && step.pid == pid && step.ref == ref then [step.payload] else []
  }

  ghost function SentAll(steps: seq<Step>, pid: Pid, ref: Ref): seq<nat> {
    if |steps| == 0 then []
    else SentAll(steps[..|steps| - 1], pid, ref) + Sent(steps[|steps| - 1], pid, ref)
  }

  lemma {:induction false} WaitingAppend(a: seq<Signal>, b: seq<Signal>, ref: Ref)
    ensures Waiting(a + b, ref) == Waiting(a, ref) + Waiting(b, ref)
  {
    if |a| == 0 {
      assert a + b == b;
    } else {
      assert (a + b)[1..] == a[1..] + b;
      WaitingAppend(a[1..], b, ref);
    }
  }

  lemma WaitingOne(sig: Signal, ref: Ref)
    ensures Waiting([sig], ref) == if sig.AliasMessageSignal? && sig.ref == ref then [sig.payload] else []
  {
    assert [sig][1..] == [];
  }

  lemma PayloadsMore(msgs: seq<Message>, m: Message, ref: Ref)
    ensures Payloads(msgs + [m], ref) == Payloads(msgs, ref) + if m.ToAlias? && m.ref == ref then [m.payload] else []
  {
    assert (msgs + [m])[..|msgs|] == msgs;
  }

  /** The signals q has not looked at grow by this one at most. */
  lemma PostWaiting(procs: map<Pid, Process>, t: Pid, sig: Signal, q: Pid, ref: Ref)
    requires q in procs
    ensures var p, p' := procs[q], Post(procs, t, sig)[q];
            && p'.received == p.received
            && Waiting(p'.batch + p'.inbox, ref) ==
               Waiting(p.batch + p.inbox, ref)
               + if t == q && sig.AliasMessageSignal? && sig.ref == ref then [sig.payload] else []
  {
    var p := procs[q];
    WaitingOne(sig, ref);
    WaitingAppend(p.batch + p.inbox, [sig], ref);
    assert p.batch + (p.inbox + [sig]) == p.batch + p.inbox + [sig];
    assert Waiting(p.batch + p.inbox, ref) + [] == Waiting(p.batch + p.inbox, ref);
  }

  lemma {:induction false} FarewellWaiting(q: seq<Signal>, ref: Ref)
    requires forall sig :: sig in q ==> !sig.AliasMessageSignal?
    ensures Waiting(q, ref) == []
  {
    if |q| > 0 { FarewellWaiting(q[1..], ref); }
  }

  lemma StreamPosted(procs: map<Pid, Process>, t: Pid, sig: Signal, q: Pid, ref: Ref)
    requires q in procs && !sig.AliasMessageSignal?
    ensures Stream(Post(procs, t, sig)[q], ref) == Stream(procs[q], ref)
  {
    hide Post, Payloads, Waiting;
    PostWaiting(procs, t, sig, q, ref);
    assert Waiting(procs[q].batch + procs[q].inbox, ref) + [] == Waiting(procs[q].batch + procs[q].inbox, ref);
  }

  /** While an alias stays active, nothing sent to it is lost, doubled or out of order. */
  lemma StreamStep(s: State, step: Step, q: Pid, ref: Ref)
    requires Inv(s) && Enabled(s, step) && q in s.procs && q in Next(s, step).procs && ref < s.nextRef
    requires AliasActive(Next(s, step).procs[q], ref)
    ensures Stream(Next(s, step).procs[q], ref) == Stream(s.procs[q], ref) + Sent(step, q, ref)
  {
    hide Inv, Stream, DoMonitor, DoDemonitor, DoSplit, DoHandle, AliasActive, Post, Unalias, FindAlias, Add, Farewell,
      Drain;
    match step
    case SetMonitor(pid, target, name, alias) => StreamMonitor(s, pid, target, name, alias, q, ref);
    case CallDemonitor(pid, r) => StreamDemonitor(s, pid, r, q, ref);
    case SendToAlias(pid, r, payload) => StreamSend(s, pid, r, payload, q, ref);
    case Split(pid) => StreamSplit(s, pid, q, ref);
    case Handle(pid) => StreamHandle(s, pid, q, ref);
    case Terminate(pid) => StreamTerminate(s, pid, q, ref);
    case _ => StreamOther(s, step, q, ref);
  }

  lemma StreamOther(s: State, step: Step, q: Pid, ref: Ref)
    requires Enabled(s, step) && q in s.procs && (step.Spawn? || step.MakeAlias? || step.CallUnalias? || step.Detach?)
    ensures q in Next(s, step).procs && Stream(Next(s, step).procs[q], ref) == Stream(s.procs[q], ref) + []
  {
    hide Unalias, FindAlias, Add, Payloads, Waiting;
    var p := s.procs[q];
    if step.Detach? { assert [] + p.inbox == p.inbox + []; }
  }

  lemma StreamSend(s: State, pid: Pid, r: Ref, payload: nat, q: Pid, ref: Ref)
    requires q in s.procs
    ensures q in Post(s.procs, pid, AliasMessageSignal(r, payload))
    ensures Stream(Post(s.procs, pid, AliasMessageSignal(r, payload))[q], ref) ==
            Stream(s.procs[q], ref) + Sent(SendToAlias(pid, r, payload), q, ref)
  {
    hide Payloads, Waiting;
    PostWaiting(s.procs, pid, AliasMessageSignal(r, payload), q, ref);
  }

  lemma StreamMonitor(s: State, pid: Pid, target: Pid, name: Option<nat>, alias: Option<AliasType>, q: Pid, ref: Ref)
    requires pid in s.procs && q in s.procs
    ensures q in DoMonitor(s, pid, target, name, alias).procs
    ensures Stream(DoMonitor(s, pid, target, name, alias).procs[q], ref) == Stream(s.procs[q], ref) + []
  {
    hide Post, Add, AddAlias, Payloads, Waiting;
    PayloadsMore(s.procs[pid].received, Down(s.nextRef), ref);
    assert Payloads(s.procs[pid].received, ref) + [] == Payloads(s.procs[pid].received, ref);
    assert Stream(s.procs[q], ref) + [] == Stream(s.procs[q], ref);
    PostKeys(s.procs, target, MonitorSignal(Monitored(pid, s.nextRef, alias.Some?)));
    StreamPosted(s.procs, target, MonitorSignal(Monitored(pid, s.nextRef, alias.Some?)), q, ref);
  }

  lemma PostKeys(procs: map<Pid, Process>, t: Pid, sig: Signal)
    ensures Post(procs, t, sig).Keys == procs.Keys
  {}

  lemma StreamDemonitor(s: State, pid: Pid, r: Ref, q: Pid, ref: Ref)
    requires pid in s.procs && q in s.procs
    ensures q in DoDemonitor(s, pid, r).procs
    ensures Stream(DoDemonitor(s, pid, r).procs[q], ref) == Stream(s.procs[q], ref) + []
  {
    hide Post, Demonitor, MonitorHalf, Payloads, Waiting;
    var p := s.procs[pid];
    var half := MonitorHalf(p.entries, r);
    assert Stream(s.procs[q], ref) + [] == Stream(s.procs[q], ref);
    if half.Some? && half.value.Monitoring? {
      var procs := s.procs[pid := p.(entries := Demonitor(p.entries, r))];
      PostKeys(procs, half.value.target, DemonitorSignal(r));
      StreamPosted(procs, half.value.target, DemonitorSignal(r), q, ref);
    }
  }

  lemma StreamHandle(s: State, pid: Pid, q: Pid, ref: Ref)
    requires Enabled(s, Handle(pid)) && q in s.procs
    ensures q in DoHandle(s, pid).procs && Stream(DoHandle(s, pid).procs[q], ref) == Stream(s.procs[q], ref) + []
  {
    hide AfterDown, Apply, Payloads, Waiting;
    var p := s.procs[pid];
    var sig := p.pending[0];
    assert Stream(s.procs[q], ref) + [] == Stream(s.procs[q], ref);
    if sig.MonitorDownSignal? {
      PayloadsMore(p.received, Down(sig.ref), ref);
      assert Payloads(p.received, ref) + [] == Payloads(p.received, ref);
    }
  }

  lemma StreamTerminate(s: State, pid: Pid, q: Pid, ref: Ref)
    requires Enabled(s, Terminate(pid)) && q in s.procs && q != pid
    ensures q in DoTerminate(s, pid).procs && Stream(DoTerminate(s, pid).procs[q], ref) == Stream(s.procs[q], ref) + []
  {
    hide Farewell, Drain, Payloads, Waiting;
    var p, halves := s.procs[q], Drain(s.procs[pid].entries, s.procs[pid].inbox).halves;
    var told := Farewell(pid, halves, q);
    forall sig | sig in told ensures !sig.AliasMessageSignal? { FarewellMembers(pid, halves, q, sig); }
    FarewellWaiting(told, ref);
    WaitingAppend(p.batch + p.inbox, told, ref);
    assert p.batch + (p.inbox + told) == p.batch + p.inbox + told;
    assert Waiting(p.batch + p.inbox, ref) + [] == Waiting(p.batch + p.inbox, ref);
  }

  lemma StreamSplit(s: State, pid: Pid, q: Pid, ref: Ref)
    requires Inv(s) && Enabled(s, Split(pid)) && q in s.procs && q in DoSplit(s, pid).procs && ref < s.nextRef
    requires AliasActive(DoSplit(s, pid).procs[q], ref)
    ensures Stream(DoSplit(s, pid).procs[q], ref) == Stream(s.procs[q], ref) + []
  {
    hide Inv, DropAlias, DoAliasMessage, Payloads, Waiting, AliasActive;
    var p := s.procs[pid];
    var sig, rest := p.batch[0], p.batch[1..];
    assert p.batch + p.inbox == [sig] + (rest + p.inbox);
    WaitingAppend([sig], rest + p.inbox, ref);
    WaitingOne(sig, ref);
    assert Stream(s.procs[q], ref) + [] == Stream(s.procs[q], ref);
    if !sig.AliasMessageSignal? {
      assert [] + Waiting(rest + p.inbox, ref) == Waiting(rest + p.inbox, ref);
    } else if q == pid {
      MessageIsDelivered(s, pid);
      WasActive(s, pid, ref);
      var got := if AliasActive(p, sig.ref) then [ToAlias(sig.ref, sig.payload)] else [];
      PayloadsMore(p.received, ToAlias(sig.ref, sig.payload), ref);
      assert p.received + [] == p.received;
      assert Payloads(p.received, ref) + [] == Payloads(p.received, ref);
      assert [] + Waiting(rest + p.inbox, ref) == Waiting(rest + p.inbox, ref);
      assert Payloads(p.received, ref) + [sig.payload] + Waiting(rest + p.inbox, ref) ==
             Payloads(p.received, ref) + ([sig.payload] + Waiting(rest + p.inbox, ref));
    } else {
      StreamMessageOther(s, pid, sig.ref, sig.payload, q, ref);
    }
  }

  lemma WasActive(s: State, pid: Pid, ref: Ref)
    requires Inv(s) && Enabled(s, Split(pid)) && pid in Next(s, Split(pid)).procs && ref < s.nextRef
    requires AliasActive(Next(s, Split(pid)).procs[pid], ref)
    ensures AliasActive(s.procs[pid], ref)
  {
    hide Inv, Next, Enabled;
    SplitEffect(s, pid);
  }

  lemma StreamMessageOther(s: State, pid: Pid, r: Ref, payload: nat, q: Pid, ref: Ref)
    requires pid in s.procs && |s.procs[pid].batch| > 0 && q in s.procs && q != pid
    ensures q in DoAliasMessage(s, pid, r, payload).procs
    ensures Stream(DoAliasMessage(s, pid, r, payload).procs[q], ref) == Stream(s.procs[q], ref)
  {
    hide MonitorHalf, FindAlias, Demonitor, Post, Stream;
    var p := s.procs[pid].(batch := s.procs[pid].batch[1..]);
    var p' := p.(received := p.received + [ToAlias(r, payload)], entries := Demonitor(p.entries, r));
    var half := MonitorHalf(p.entries, r);
    var found := FindAlias(p.entries, r);
    if half.Some? && half.value.Monitoring? && found.Some? && found.value.Alias? && found.value.kind == ReplyDemonitor {
      PostKeys(s.procs[pid := p'], half.value.target, DemonitorSignal(r));
      StreamPosted(s.procs[pid := p'], half.value.target, DemonitorSignal(r), q, ref);
    }
  }

  /** From one state to a later one in which an alias is still active: what has come through it
      and is still to come is what it was, and behind it what was sent since, in order. */
  lemma {:induction false} RunInOrder(states: seq<State>, steps: seq<Step>, i: nat, j: nat, pid: Pid, ref: Ref)
    requires Run(states, steps) && i <= j < |states| && Lives(states, i, j, pid) && ref < states[i].nextRef
    requires AliasActive(states[j].procs[pid], ref)
    ensures ref < states[j].nextRef
    ensures Stream(states[j].procs[pid], ref) == Stream(states[i].procs[pid], ref) + SentAll(steps[i..j], pid, ref)
    decreases j
  {
    hide Inv, Standing, Next, Enabled, Stream, AliasActive, SentAll;
    if i < j {
      assert Enabled(states[j - 1], steps[j - 1]) && states[j] == Next(states[j - 1], steps[j - 1]);
      RunStanding(states, steps, j - 1);
      WasActiveBefore(states, steps, i, j, pid, ref);
      RunInOrder(states, steps, i, j - 1, pid, ref);
      StreamStep(states[j - 1], steps[j - 1], pid, ref);
      SentOneMore(steps, i, j, pid, ref);
      ThreeParts(Stream(states[i].procs[pid], ref), SentAll(steps[i..j - 1], pid, ref), Sent(steps[j - 1], pid, ref));
    } else {
      SentNone(steps, i, pid, ref);
      assert Stream(states[i].procs[pid], ref) + [] == Stream(states[i].procs[pid], ref);
    }
  }

  lemma ThreeParts(a: seq<nat>, b: seq<nat>, c: seq<nat>)
    ensures a + b + c == a + (b + c)
  {}

  lemma SentNone(steps: seq<Step>, i: nat, pid: Pid, ref: Ref)
    requires i <= |steps|
    ensures SentAll(steps[i..i], pid, ref) == []
  {}

  lemma SentOneMore(steps: seq<Step>, i: nat, j: nat, pid: Pid, ref: Ref)
    requires i < j <= |steps|
    ensures SentAll(steps[i..j], pid, ref) == SentAll(steps[i..j - 1], pid, ref) + Sent(steps[j - 1], pid, ref)
  {
    assert steps[i..j][..j - 1 - i] == steps[i..j - 1] && steps[i..j][j - 1 - i] == steps[j - 1];
  }

  /** An alias of an earlier reference that is active was so before. */
  lemma WasActiveBefore(states: seq<State>, steps: seq<Step>, i: nat, j: nat, pid: Pid, ref: Ref)
    requires Run(states, steps) && i < j < |states| && Lives(states, i, j, pid) && ref < states[i].nextRef
    requires AliasActive(states[j].procs[pid], ref)
    ensures ref < states[j - 1].nextRef && ref < states[j].nextRef && AliasActive(states[j - 1].procs[pid], ref)
  {
    hide Inv, Standing, Next, Enabled, AliasActive, IsMonitoring, Downs, ToAliases;
    RunQuiet(states, steps, i, j - 1, pid, ref);
    RunQuiet(states, steps, j - 1, j, pid, ref);
  }

  // ---- a process can always get through its queue ----

  /** Steps that follow each other, from any state. */
  ghost predicate Path(states: seq<State>, steps: seq<Step>) {
    && |states| == |steps| + 1
    && forall i :: 0 <= i < |steps| ==> Enabled(states[i], steps[i]) && states[i + 1] == Next(states[i], steps[i])
  }

  /** Only steps in which a process handles what it has queued. */
  ghost predicate OwnWork(steps: seq<Step>, pid: Pid) {
    forall step :: step in steps ==> step in {Detach(pid), Split(pid), Handle(pid)}
  }

  /** How much is left to do: every signal is detached, looked at and handled. */
  ghost function ToDo(p: Process): nat { |p.pending| + 2 * |p.batch| + 3 * |p.inbox| }

  /** The step that comes next for a process with something queued. */
  function Work(p: Process, pid: Pid): Step {
    if |p.batch| > 0 then Split(pid) else if |p.pending| > 0 then Handle(pid) else Detach(pid)
  }

  lemma WorkGetsDone(s: State, pid: Pid)
    requires Inv(s) && pid in s.procs && Queue(s.procs[pid]) != []
    ensures Enabled(s, Work(s.procs[pid], pid))
    ensures var s' := Next(s, Work(s.procs[pid], pid)); pid in s'.procs && ToDo(s'.procs[pid]) < ToDo(s.procs[pid])
  {
    hide Inv, DropAlias, AfterDown, Apply, DoAliasMessage;
    var p := s.procs[pid];
    if |p.batch| > 0 && p.batch[0].AliasMessageSignal? { MessageIsDelivered(s, pid); }
  }

  /** From every state that keeps the invariant, a process can work until nothing is queued. */
  lemma {:induction false} CanSettle(s: State, pid: Pid) returns (states: seq<State>, steps: seq<Step>)
    requires Inv(s) && pid in s.procs
    ensures Path(states, steps) && states[0] == s && OwnWork(steps, pid)
    ensures pid in states[|steps|].procs && Queue(states[|steps|].procs[pid]) == []
    decreases ToDo(s.procs[pid])
  {
    hide Inv, Next, Enabled, Queue, ToDo;
    if Queue(s.procs[pid]) == [] {
      states, steps := [s], [];
    } else {
      var step := Work(s.procs[pid], pid);
      WorkGetsDone(s, pid);
      NextKeeps(s, step);
      var rest, more := CanSettle(Next(s, step), pid);
      states, steps := [s] + rest, [step] + more;
      PathFrom(s, step, rest, more);
    }
  }

  lemma PathFrom(s: State, step: Step, rest: seq<State>, more: seq<Step>)
    requires Path(rest, more) && Enabled(s, step) && rest[0] == Next(s, step)
    ensures Path([s] + rest, [step] + more)
  {
    hide Next, Enabled;
    var states, steps := [s] + rest, [step] + more;
    forall i | 0 <= i < |steps| ensures Enabled(states[i], steps[i]) && states[i + 1] == Next(states[i], steps[i]) {
      if i > 0 { assert states[i] == rest[i - 1] && steps[i] == more[i - 1] && states[i + 1] == rest[i]; }
    }
  }

  /** A live process can always make its calls, anyone can send to an alias, and a free
      identifier can be taken. */
  lemma CanCall(s: State, pid: Pid, target: Pid, name: Option<nat>, alias: Option<AliasType>, ref: Ref, payload: nat)
    ensures Enabled(s, Spawn(pid)) <==> pid !in s.procs
    ensures Enabled(s, SetMonitor(pid, target, name, alias)) <==> pid in s.procs
    ensures Enabled(s, CallDemonitor(pid, ref)) <==> pid in s.procs
    ensures Enabled(s, MakeAlias(pid, ExplicitUnalias)) <==> pid in s.procs
    ensures Enabled(s, CallUnalias(pid, ref)) <==> pid in s.procs
    ensures Enabled(s, SendToAlias(pid, ref, payload))
  {}

  /** And it can end, once it has handled what it has queued. */
  lemma CanEnd(s: State, pid: Pid) returns (states: seq<State>, steps: seq<Step>)
    requires Inv(s) && pid in s.procs
    ensures Path(states, steps) && states[0] == s && OwnWork(steps, pid)
    ensures Enabled(states[|steps|], Terminate(pid))
  {
    hide Inv, Next;
    states, steps := CanSettle(s, pid);
  }
}
