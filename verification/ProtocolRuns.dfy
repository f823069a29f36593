/** What the processes of a run can rely on: no DOWN is lost, none comes twice, and none
    comes after the monitor was taken back. */
module ProtocolRuns {
  import opened Prelude
  import opened Monitors
  import opened Protocol
  import opened ProtocolProof

  // ---- no DOWN is lost ----

  /** The monitor is registered with its live target, or its DOWN is on the way. */
  ghost predicate Stands(s: State, q: Pid, h: Half)
    requires q in s.procs && h.Monitoring?
  {
    || (h.target in s.procs && (q, h.ref) in Watch(s.procs[h.target]))
    || DownQueued(s.procs[q], h.ref, h.target)
  }

  ghost predicate Holds(p: Process, h: Half) { h in p.entries.halves && h.Monitoring? }

  ghost predicate Standing(s: State) {
    forall q: Pid, h: Half :: q in s.procs && Holds(s.procs[q], h) ==> Stands(s, q, h)
  }

  /** A process changes only itself: it loses no watcher, sets no monitor, and the
      monitors it keeps lose no queued DOWN. */
  lemma OwnStanding(s: State, pid: Pid, p': Process)
    requires Standing(s) && pid in s.procs && Watch(s.procs[pid]) <= Watch(p')
    requires forall h :: Holds(p', h) ==> Holds(s.procs[pid], h)
    requires forall h :: Holds(p', h) && DownQueued(s.procs[pid], h.ref, h.target) ==> DownQueued(p', h.ref, h.target)
    ensures Standing(s.(procs := s.procs[pid := p']))
  {
    hide Watch, DownQueued;
    var s' := s.(procs := s.procs[pid := p']);
    forall q: Pid, h: Half | q in s'.procs && Holds(s'.procs[q], h) ensures Stands(s', q, h) {
      assert Holds(s.procs[q], h) && Stands(s, q, h);
    }
  }

  /** A signal in a mailbox; a demonitor only once nobody holds its monitor. */
  lemma PostStanding(s: State, t: Pid, sig: Signal)
    requires Standing(s)
    requires sig.DemonitorSignal? ==> forall q: Pid, h: Half :: q in s.procs && Holds(s.procs[q], h) ==>
             h.ref != sig.ref
    ensures Standing(s.(procs := Post(s.procs, t, sig)))
  {
    hide Watch, Queue;
    if t in s.procs {
      var p' := s.procs[t].(inbox := s.procs[t].inbox + [sig]);
      var s' := s.(procs := Post(s.procs, t, sig));
      QueuePost(s.procs[t], sig);
      forall q: Pid, h: Half | q in s'.procs && Holds(s'.procs[q], h) ensures Stands(s', q, h) {
        assert Holds(s.procs[q], h) && Stands(s, q, h);
      }
    } else {
      assert s.(procs := Post(s.procs, t, sig)) == s;
    }
  }

  lemma SameQueueWatch(p: Process, p': Process)
    requires Queue(p') == Queue(p) && Watchers(p.entries.halves) <= Watchers(p'.entries.halves)
    ensures Watch(p) <= Watch(p')
    ensures forall ref: Ref, from: Pid :: DownQueued(p, ref, from) ==> DownQueued(p', ref, from)
  {
    DrainWatchMono(Watchers(p.entries.halves), Watchers(p'.entries.halves), Queue(p));
  }

  lemma SkippedWatch(p: Process, p': Process)
    requires Watchers(p.entries.halves) <= Watchers(p'.entries.halves) && Skips(p, p')
    ensures Watch(p) <= Watch(p')
  {
    DrainWatchMono(Watchers(p.entries.halves), Watchers(p'.entries.halves), Queue(p'));
    if Queue(p') != Queue(p) {
      var a, b, sig :| SkipsOne(p, p', a, sig, b);
      DrainWatchSkip(Watchers(p.entries.halves), a, sig, b);
    }
  }

  /** Taking a signal from the batch leaves the DOWNs, unless it is one. */
  lemma BatchDowns(p: Process, p': Process)
    requires |p.batch| > 0 && p.batch[0].AliasMessageSignal?
    requires p'.inbox == p.inbox && p'.batch == p.batch[1..] && p'.pending == p.pending
    ensures forall ref: Ref, from: Pid :: DownQueued(p, ref, from) ==> DownQueued(p', ref, from)
  {
    assert Queue(p) == p.pending + ([p.batch[0]] + p.batch[1..]) + p.inbox;
  }

  lemma UnaliasStanding(s: State, pid: Pid, ref: Ref)
    requires Inv(s) && Standing(s) && pid in s.procs && FindAlias(s.procs[pid].entries, ref).Some?
    ensures Standing(Next(s, CallUnalias(pid, ref)))
  {
    hide Inv, Standing, Unalias, Watch;
    var p := s.procs[pid];
    var p' := p.(entries := Unalias(p.entries, ref));
    ProcessSane(s, pid);
    UnaliasMembers(p.entries, ref);
    SameQueueWatch(p, p');
    OwnStanding(s, pid, p');
  }

  lemma UnaliasMembers(e: Entries, ref: Ref)
    requires Sane(e) && FindAlias(e, ref).Some?
    ensures forall h :: h in Unalias(e, ref).halves ==> h in e.halves
    ensures forall h :: h in e.halves && !h.Alias? ==> h in Unalias(e, ref).halves
  {
    ShortcutAgrees(e, ref);
    UnaliasSane(e, ref);
    assert WalkAlias(e, ref).value.Alias?;
  }

  lemma SetAsideStanding(s: State, pid: Pid)
    requires Inv(s) && Standing(s) && Enabled(s, Split(pid)) && !s.procs[pid].batch[0].AliasMessageSignal?
    ensures Standing(Next(s, Split(pid)))
  {
    hide Inv, Standing, DropAlias, Watch, DoAliasMessage;
    var p := s.procs[pid];
    var sig := p.batch[0];
    var e := if sig.MonitorDownSignal? then DropAlias(p.entries, sig.ref) else p.entries;
    var p' := p.(entries := e, batch := p.batch[1..], pending := p.pending + [sig]);
    assert Queue(p') == Queue(p);
    SetAsideMembers(s, pid);
    SameQueueWatch(p, p');
    OwnStanding(s, pid, p');
  }

  lemma SetAsideMembers(s: State, pid: Pid)
    requires Inv(s) && pid in s.procs
    ensures forall ref: Ref, h :: h in DropAlias(s.procs[pid].entries, ref).halves ==> h in s.procs[pid].entries.halves
    ensures forall ref: Ref, h :: h in s.procs[pid].entries.halves && !h.Alias? ==>
              h in DropAlias(s.procs[pid].entries, ref).halves
  {
    var e := s.procs[pid].entries;
    ProcessSane(s, pid);
    hide WatchersAlive, DownsFinal, DropAlias, Sane;
    RefsDetermine(s, pid, e);
    forall ref: Ref ensures OnlyAliasGone(e, DropAlias(e, ref), ref) { DropAliasMembers(e, ref); }
  }

  /** An alias message that takes no monitor along. */
  lemma MessageStanding(s: State, pid: Pid, p': Process)
    requires Standing(s) && Enabled(s, Split(pid)) && s.procs[pid].batch[0].AliasMessageSignal?
    requires p'.inbox == s.procs[pid].inbox && p'.batch == s.procs[pid].batch[1..] && p'.pending == s.procs[pid].pending
    requires Watchers(s.procs[pid].entries.halves) <= Watchers(p'.entries.halves)
    requires forall h :: Holds(p', h) ==> Holds(s.procs[pid], h)
    ensures Standing(s.(procs := s.procs[pid := p']))
  {
    hide Standing, Watch, Holds, Watchers;
    BatchHead(s.procs[pid], p');
    SkippedWatch(s.procs[pid], p');
    BatchDowns(s.procs[pid], p');
    OwnStanding(s, pid, p');
  }

  /** Taking back a monitor of its own leaves a process as watched as before. */
  lemma DemonitorWatchers(s: State, pid: Pid, ref: Ref, h: Half)
    requires Inv(s) && pid in s.procs && h in s.procs[pid].entries.halves && h.ref == ref && !h.Monitored?
    ensures var e := s.procs[pid].entries;
            Watchers(e.halves) <= Watchers(Demonitor(e, ref).halves)
    ensures forall x :: x in Demonitor(s.procs[pid].entries, ref).halves && x.Monitoring? ==>
              x in s.procs[pid].entries.halves && x.ref != ref
    ensures forall q: Pid, x: Half :: q in s.procs && q != pid && Holds(s.procs[q], x) ==> x.ref != ref
  {
    hide WatchersAlive, DownsFinal, Demonitor;
    var e := s.procs[pid].entries;
    ProcessSane(s, pid);
    EntryOk(s, pid, h);
    DemonitorOwn(s, pid, e, ref);
    forall x | x in Watchers(e.halves) ensures x in Watchers(Demonitor(e, ref).halves) {
      var m :| m in e.halves && m.Monitored? && x == (m.watcher, m.ref);
      EntryOk(s, pid, m);
      assert m in Demonitor(e, ref).halves;
    }
    forall q: Pid, x: Half | q in s.procs && q != pid && Holds(s.procs[q], x) ensures x.ref != ref {
      EntryOk(s, q, x);
    }
  }

  /** The own half goes and the target is told. */
  lemma TellStanding(s: State, pid: Pid, ref: Ref, h: Half, t: Pid, p': Process)
    requires Inv(s) && pid in s.procs && h in s.procs[pid].entries.halves && h.ref == ref && !h.Monitored?
    requires p'.entries == Demonitor(s.procs[pid].entries, ref)
    requires Standing(s.(procs := s.procs[pid := p']))
    ensures Standing(s.(procs := Post(s.procs[pid := p'], t, DemonitorSignal(ref))))
  {
    hide Inv, Demonitor, Standing;
    DemonitorWatchers(s, pid, ref, h);
    PostStanding(s.(procs := s.procs[pid := p']), t, DemonitorSignal(ref));
  }

  lemma CallDemonitorStanding(s: State, pid: Pid, ref: Ref)
    requires Inv(s) && Standing(s) && pid in s.procs
    ensures Standing(DoDemonitor(s, pid, ref))
  {
    hide Inv, Standing, Demonitor, MonitorHalf, Watch;
    var p := s.procs[pid];
    var p' := p.(entries := Demonitor(p.entries, ref));
    var half := MonitorHalf(p.entries, ref);
    MonitorHalfMember(p.entries, ref);
    if half.Some? && half.value.Monitoring? {
      DemonitorWatchers(s, pid, ref, half.value);
      assert Queue(p') == Queue(p);
      SameQueueWatch(p, p');
      OwnStanding(s, pid, p');
      TellStanding(s, pid, ref, half.value, half.value.target, p');
    }
  }

  lemma AliasMessageStanding(s: State, pid: Pid)
    requires Inv(s) && Standing(s) && Enabled(s, Split(pid)) && s.procs[pid].batch[0].AliasMessageSignal?
    ensures Standing(Next(s, Split(pid)))
  {
    hide Inv, Standing, Demonitor, MonitorHalf, Watch, FindAlias, Watchers;
    var p := s.procs[pid];
    var ref, payload := p.batch[0].ref, p.batch[0].payload;
    ProcessSane(s, pid);
    AliasMember(p.entries, ref);
    var found := FindAlias(p.entries, ref);
    var p1 := p.(batch := p.batch[1..]);
    if found.None? {
      MessageStanding(s, pid, p1);
    } else {
      var p2 := p1.(received := p.received + [ToAlias(ref, payload)]);
      if found.value.kind != ReplyDemonitor {
        MessageStanding(s, pid, p2);
      } else {
        var p3 := p2.(entries := Demonitor(p.entries, ref));
        DemonitorWatchers(s, pid, ref, found.value);
        MessageStanding(s, pid, p3);
        var half := MonitorHalf(p.entries, ref);
        if half.Some? && half.value.Monitoring? {
          TellStanding(s, pid, ref, found.value, half.value.target, p3);
        }
      }
    }
  }

  // ---- the second pass ----

  lemma HandleStanding(s: State, pid: Pid)
    requires Inv(s) && Standing(s) && Enabled(s, Handle(pid)) && !s.procs[pid].pending[0].MonitorDownSignal?
    ensures Standing(Next(s, Handle(pid)))
  {
    hide HistoryOk, WatchersAlive, DownsFinal, Standing, Apply, ReceivedOk, EntriesOk, SignalOk;
    var p := s.procs[pid];
    var sig := p.pending[0];
    var p' := p.(pending := p.pending[1..], entries := Apply(p.entries, sig));
    assert ProcessOk(s, pid, p);
    PendingHead(p, p');
    assert sig in Queue(p);
    ApplyWatchers(s, pid, p.entries, sig);
    assert Watch(p') == Watch(p) by { assert ([sig] + Queue(p'))[1..] == Queue(p'); }
    OwnStanding(s, pid, p');
  }

  /** A DOWN without its monitor changes nothing. */
  lemma NoHalfForDown(e: Entries, ref: Ref, from: Pid)
    requires AfterDown(e, ref, from).None?
    ensures forall h :: h in e.halves && h.Monitoring? ==> !(h.ref == ref && h.target == from)
  {
    forall h | h in e.halves && h.Monitoring? ensures !(h.ref == ref && h.target == from) {
      var k :| 0 <= k < |e.halves| && e.halves[k] == h;
      assert !Matches(e.halves[k], MonitoringKey(ref, from));
    }
  }

  lemma DownWatchers(s: State, pid: Pid, ref: Ref, from: Pid)
    requires Inv(s) && pid in s.procs && DownQueued(s.procs[pid], ref, from)
    requires AfterDown(s.procs[pid].entries, ref, from).Some?
    ensures var e, e' := s.procs[pid].entries, AfterDown(s.procs[pid].entries, ref, from).value;
            Watchers(e.halves) <= Watchers(e'.halves)
            && forall h :: h in e'.halves ==> h in e.halves && !(h.Monitoring? && h.ref == ref)
  {
    hide WatchersAlive, DownsFinal, AfterDown, ReceivedOk;
    var e, e' := s.procs[pid].entries, AfterDown(s.procs[pid].entries, ref, from).value;
    assert ProcessOk(s, pid, s.procs[pid]) && SignalOk(s, pid, MonitorDownSignal(ref, from));
    RefsDetermine(s, pid, e);
    AfterDownMembers(e, ref, from);
    forall x | x in Watchers(e.halves) ensures x in Watchers(e'.halves) {
      var m :| m in e.halves && m.Monitored? && x == (m.watcher, m.ref);
      assert HalfOk(s, pid, m);
      assert m in e'.halves;
    }
  }

  /** The head of pending leaves the queue and takes no other DOWN along. */
  lemma PendingDowns(p: Process, p': Process)
    requires p.batch == [] && |p.pending| > 0 && p.pending[0].MonitorDownSignal?
    requires p'.inbox == p.inbox && p'.batch == p.batch && p'.pending == p.pending[1..]
    ensures Skips(p, p') && DownQueued(p, p.pending[0].ref, p.pending[0].from)
    ensures forall ref: Ref, from: Pid :: DownQueued(p, ref, from) ==>
              DownQueued(p', ref, from) || MonitorDownSignal(ref, from) == p.pending[0]
  {
    PendingHead(p, p');
    assert SkipsOne(p, p', [], p.pending[0], Queue(p'));
  }

  lemma HandleDownStanding(s: State, pid: Pid)
    requires Inv(s) && Standing(s) && Enabled(s, Handle(pid)) && s.procs[pid].pending[0].MonitorDownSignal?
    ensures Standing(Next(s, Handle(pid)))
  {
    hide Inv, Standing, AfterDown, Apply, Watch, Watchers, Queue, DownQueued, Skips;
    var p := s.procs[pid];
    var sig := p.pending[0];
    var after := AfterDown(p.entries, sig.ref, sig.from);
    var p1 := p.(pending := p.pending[1..]);
    var p' := if after.None? then p1 else p1.(entries := after.value, received := p.received + [Down(sig.ref)]);
    PendingDowns(p, p');
    if after.None? { NoHalfForDown(p.entries, sig.ref, sig.from); } else { DownWatchers(s, pid, sig.ref, sig.from); }
    SkippedWatch(p, p');
    OwnStanding(s, pid, p');
  }

  // ---- new references, new processes ----

  /** Entries that are not monitors of the process's own leave its monitors standing. */
  lemma AddedStanding(s: State, pid: Pid, p': Process)
    requires Standing(s) && pid in s.procs && Queue(p') == Queue(s.procs[pid])
    requires forall h :: h in s.procs[pid].entries.halves ==> h in p'.entries.halves
    requires forall h :: Holds(p', h) ==> Holds(s.procs[pid], h)
    ensures Standing(s.(procs := s.procs[pid := p']))
  {
    hide Standing, Watch, Queue;
    SameQueueWatch(s.procs[pid], p');
    OwnStanding(s, pid, p');
  }

  lemma StandingSame(s: State, s': State)
    requires Standing(s) && s'.procs == s.procs
    ensures Standing(s')
  {
    hide Watch, DownQueued;
    forall q: Pid, h: Half | q in s'.procs && Holds(s'.procs[q], h) ensures Stands(s', q, h) {
      assert Holds(s.procs[q], h) && Stands(s, q, h);
    }
  }

  /** The new monitor stands once its target has been told. */
  lemma NewMonitorStanding(s: State, pid: Pid, target: Pid, name: Option<nat>, alias: Option<AliasType>)
    requires Inv(s) && Standing(s) && pid in s.procs && target in s.procs && target != pid
    ensures Standing(DoMonitor(s, pid, target, name, alias))
  {
    hide Inv, Watch, DownQueued, AddAlias, Add, MonitorRefs;
    var p, ref := s.procs[pid], s.nextRef;
    var sig := MonitorSignal(Monitored(pid, ref, alias.Some?));
    var p' := p.(entries := MonitorEntries(p, target, ref, name, alias));
    var t' := s.procs[target].(inbox := s.procs[target].inbox + [sig]);
    var s' := DoMonitor(s, pid, target, name, alias);
    assert s'.procs == s.procs[target := t'][pid := p'];
    MonitorGains(s, pid, target, name, alias);
    MonitorEntriesMembers(s, pid, target, name, alias);
    QueuePost(s.procs[target], sig);
    SameQueueWatch(p, p');
    QueueGrows(s.procs[target], sig);
    forall q: Pid, h: Half | q in s'.procs && Holds(s'.procs[q], h) ensures Stands(s', q, h) {
      if q != pid || h in p.entries.halves { assert Holds(s.procs[q], h) && Stands(s, q, h); }
    }
  }

  lemma QueueGrows(p: Process, sig: Signal)
    ensures forall ref: Ref, from: Pid :: DownQueued(p, ref, from) ==>
            DownQueued(p.(inbox := p.inbox + [sig]), ref, from)
  {}

  lemma MonitorEntriesMembers(s: State, pid: Pid, target: Pid, name: Option<nat>, alias: Option<AliasType>)
    requires Inv(s) && pid in s.procs
    ensures forall h :: h in MonitorEntries(s.procs[pid], target, s.nextRef, name, alias).halves && h.Monitoring? ==>
              h in s.procs[pid].entries.halves || h == Monitoring(target, s.nextRef, name)
    ensures forall h :: h in s.procs[pid].entries.halves ==>
              h in MonitorEntries(s.procs[pid], target, s.nextRef, name, alias).halves
  {
    hide Inv, AddAlias, Sane;
    var p, half := s.procs[pid], Monitoring(target, s.nextRef, name);
    ProcessSane(s, pid);
    AddSane(p.entries, half);
    AddAliasMembers(Add(p.entries, half), s.nextRef, alias);
  }

  lemma SetMonitorStanding(s: State, pid: Pid, target: Pid, name: Option<nat>, alias: Option<AliasType>)
    requires Inv(s) && Standing(s) && pid in s.procs
    ensures Standing(DoMonitor(s, pid, target, name, alias))
  {
    hide Inv, Standing, AddAlias, Add, Sane, Queue;
    var s', p := DoMonitor(s, pid, target, name, alias), s.procs[pid];
    if target == pid {
      StandingSame(s, s');
    } else if target !in s.procs {
      var kept := if alias == Some(ExplicitUnalias) then alias else None;
      var p' := p.(entries := AddAlias(p.entries, s.nextRef, kept), received := p.received + [Down(s.nextRef)]);
      ProcessSane(s, pid);
      AddAliasMembers(p.entries, s.nextRef, kept);
      QueueSame(p, p');
      AddedStanding(s, pid, p');
      StandingSame(s.(procs := s.procs[pid := p']), s');
    } else {
      NewMonitorStanding(s, pid, target, name, alias);
    }
  }

  lemma QueueSame(p: Process, p': Process)
    requires p'.inbox == p.inbox && p'.batch == p.batch && p'.pending == p.pending
    ensures Queue(p') == Queue(p)
  {}

  lemma MakeAliasStanding(s: State, pid: Pid, kind: AliasType)
    requires Inv(s) && Standing(s) && pid in s.procs
    ensures Standing(Next(s, MakeAlias(pid, kind)))
  {
    hide Inv, Standing, Sane, Queue;
    var p := s.procs[pid];
    var p' := p.(entries := Add(p.entries, Alias(s.nextRef, kind)));
    ProcessSane(s, pid);
    AddSane(p.entries, Alias(s.nextRef, kind));
    QueueSame(p, p');
    AddedStanding(s, pid, p');
    StandingSame(s.(procs := s.procs[pid := p']), Next(s, MakeAlias(pid, kind)));
  }

  lemma SpawnStanding(s: State, pid: Pid)
    requires Standing(s) && pid !in s.procs
    ensures Standing(Next(s, Spawn(pid)))
  {
    hide Watch, DownQueued;
    var s' := Next(s, Spawn(pid));
    forall q: Pid, h: Half | q in s'.procs && Holds(s'.procs[q], h) ensures Stands(s', q, h) {
      assert Holds(s.procs[q], h) && Stands(s, q, h);
    }
  }

  // ---- termination ----

  lemma {:induction false} DrainWatchKeeps(w: set<(Pid, Ref)>, q: seq<Signal>, x: (Pid, Ref))
    requires x in w && DemonitorSignal(x.1) !in q
    ensures x in DrainWatch(w, q)
    decreases |q|
  {
    if |q| > 0 { DrainWatchKeeps(ApplyWatch(w, q[0]), q[1..], x); }
  }

  /** Others' watches survive the farewell of pid. */
  lemma BereavedWatch(s: State, pid: Pid, halves: seq<Half>, r: Pid, q: Pid, h: Half)
    requires Inv(s) && pid in s.procs && r in s.procs && Leaves(s, pid, halves)
    requires q in s.procs && q != pid && Holds(s.procs[q], h) && (q, h.ref) in Watch(s.procs[r])
    ensures (q, h.ref) in Watch(Bereaved(s, pid, halves, r))
  {
    hide Inv, Farewell;
    var p, f := s.procs[r], Farewell(pid, halves, r);
    EntryOk(s, q, h);
    FarewellMembers(pid, halves, r, DemonitorSignal(h.ref));
    assert p.pending + p.batch + (p.inbox + f) == p.pending + p.batch + p.inbox + f;
    DrainWatchAppend(Watchers(p.entries.halves), Queue(p), f);
    DrainWatchKeeps(Watch(p), f, (q, h.ref));
  }

  /** Who watched the dead process is told. */
  lemma DownPosted(s: State, pid: Pid, q: Pid, ref: Ref)
    requires Inv(s) && Enabled(s, Terminate(pid)) && (q, ref) in Watch(s.procs[pid])
    ensures MonitorDownSignal(ref, pid) in Farewell(pid, Drain(s.procs[pid].entries, s.procs[pid].inbox).halves, q)
  {
    hide WatchersAlive, DownsFinal, ReceivedOk, Farewell;
    var p := s.procs[pid];
    assert ProcessOk(s, pid, p) && Queue(p) == p.inbox;
    DrainWatchers(s, pid, p.entries, p.inbox);
    var halves := Drain(p.entries, p.inbox).halves;
    var h :| h in halves && h.Monitored? && (h.watcher, h.ref) == (q, ref);
    FarewellMembers(pid, halves, q, MonitorDownSignal(ref, pid));
  }

  lemma BereavedDowns(s: State, pid: Pid, halves: seq<Half>, r: Pid)
    requires r in s.procs
    ensures forall ref: Ref, from: Pid :: DownQueued(s.procs[r], ref, from) ==>
              DownQueued(Bereaved(s, pid, halves, r), ref, from)
    ensures forall ref: Ref, from: Pid :: MonitorDownSignal(ref, from) in Farewell(pid, halves, r) ==>
              DownQueued(Bereaved(s, pid, halves, r), ref, from)
  {
    hide Farewell;
  }

  lemma TerminateStanding(s: State, pid: Pid)
    requires Inv(s) && Standing(s) && Enabled(s, Terminate(pid))
    ensures Standing(Next(s, Terminate(pid)))
  {
    hide Inv, Watch, DownQueued, Drain, Farewell, Leaves, Queue;
    var halves := Drain(s.procs[pid].entries, s.procs[pid].inbox).halves;
    var s' := DoTerminate(s, pid);
    DrainLeaves(s, pid);
    forall q: Pid, h: Half | q in s'.procs && Holds(s'.procs[q], h) ensures Stands(s', q, h) {
      assert s'.procs[q] == Bereaved(s, pid, halves, q);
      assert Holds(s.procs[q], h) && Stands(s, q, h);
      BereavedDowns(s, pid, halves, q);
      if h.target in s.procs && (q, h.ref) in Watch(s.procs[h.target]) {
        if h.target == pid { DownPosted(s, pid, q, h.ref); } else { BereavedWatch(s, pid, halves, h.target, q, h); }
      }
    }
  }

  // ---- every step, every run ----

  lemma NextStanding(s: State, step: Step)
    requires Inv(s) && Standing(s) && Enabled(s, step)
    ensures Standing(Next(s, step))
  {
    hide Inv, Standing, DoMonitor, DoDemonitor, DoSplit, DoHandle, DoTerminate, FindAlias, Add, Unalias;
    match step
    case Spawn(pid) => SpawnStanding(s, pid);
    case SetMonitor(pid, target, name, alias) => SetMonitorStanding(s, pid, target, name, alias);
    case CallDemonitor(pid, ref) => CallDemonitorStanding(s, pid, ref);
    case MakeAlias(pid, kind) => MakeAliasStanding(s, pid, kind);
    case CallUnalias(pid, ref) => if FindAlias(s.procs[pid].entries, ref).Some? { UnaliasStanding(s, pid, ref); }
    case SendToAlias(pid, ref, payload) => PostStanding(s, pid, AliasMessageSignal(ref, payload));
    case Detach(pid) =>
      var p' := s.procs[pid].(inbox := [], batch := s.procs[pid].inbox);
      assert Queue(p') == Queue(s.procs[pid]);
      AddedStanding(s, pid, p');
    case Split(pid) =>
      if s.procs[pid].batch[0].AliasMessageSignal? { AliasMessageStanding(s, pid); } else { SetAsideStanding(s, pid); }
    case Handle(pid) =>
      if s.procs[pid].pending[0].MonitorDownSignal? { HandleDownStanding(s, pid); } else { HandleStanding(s, pid); }
    case Terminate(pid) => TerminateStanding(s, pid);
  }

  lemma {:induction false} RunStanding(states: seq<State>, steps: seq<Step>, i: nat)
    requires Run(states, steps) && i < |states|
    ensures Inv(states[i]) && Standing(states[i])
  {
    hide Inv, Next, Enabled, Standing;
    RunKeeps(states, steps, i);
    if i == 0 {
      InitialStanding();
    } else {
      RunStanding(states, steps, i - 1);
      assert Enabled(states[i - 1], steps[i - 1]) && states[i] == Next(states[i - 1], steps[i - 1]);
      NextStanding(states[i - 1], steps[i - 1]);
    }
  }

  lemma InitialStanding()
    ensures Standing(Initial)
  {}

  /** In every run a dying process finds everyone it has to notify. */
  lemma RunTargetsFound(states: seq<State>, steps: seq<Step>, i: nat, pid: Pid)
    requires Run(states, steps) && i < |steps| && steps[i] == Terminate(pid)
    ensures pid in states[i].procs && TargetsFound(states[i], pid)
  {
    hide Inv, Standing, TargetsFound;
    RunStanding(states, steps, i);
    TerminateFindsTargets(states[i], pid);
  }

  /** In every run a monitor fires at most once, and a reply alias lets one message through. */
  lemma RunDelivery(states: seq<State>, steps: seq<Step>, i: nat, pid: Pid, ref: Ref)
    requires Run(states, steps) && i < |states| && pid in states[i].procs
    ensures Downs(states[i].procs[pid].received, ref) <= 1
    ensures ref in states[i].aliases && states[i].aliases[ref].kind == ReplyDemonitor ==>
              ToAliases(states[i].procs[pid].received, ref) <= 1
  {
    hide Standing, WatchersAlive, DownsFinal, EntriesOk, Run;
    RunStanding(states, steps, i);
    assert ProcessOk(states[i], pid, states[i].procs[pid]);
  }

  /** A process with nothing queued monitors live processes only, and they know it. */
  lemma RunSettled(states: seq<State>, steps: seq<Step>, i: nat, pid: Pid, h: Half)
    requires Run(states, steps) && i < |states| && pid in states[i].procs && Queue(states[i].procs[pid]) == []
    requires h in states[i].procs[pid].entries.halves && h.Monitoring?
    ensures h.target in states[i].procs && (pid, h.ref) in Watch(states[i].procs[h.target])
  {
    hide Inv, Run, Watch;
    RunStanding(states, steps, i);
    assert Holds(states[i].procs[pid], h) && Stands(states[i], pid, h);
  }

  // ---- what one step may do to a process ----

  /** A message a process may get now: a DOWN of a standing or brand-new monitor, or
      something through an active alias. */
  ghost predicate MayReceive(s: State, p: Process, m: Message) {
    match m
    case Down(ref) => IsMonitoring(p, ref) || ref == s.nextRef
    case ToAlias(ref, _) => AliasActive(p, ref)
  }

  ghost predicate Effect(s: State, p: Process, p': Process) {
    && (forall h :: h in p'.entries.halves && !h.Monitored? ==> h in p.entries.halves || h.ref == s.nextRef)
    && (p'.received == p.received ||
        exists m :: p'.received == p.received + [m] && MayReceive(s, p, m))
  }

  lemma EffectNothing(s: State, p: Process, p': Process)
    requires p'.received == p.received && NoNewOwn(p, p')
    ensures Effect(s, p, p')
  {}

  lemma SplitEffect(s: State, pid: Pid)
    requires Inv(s) && Enabled(s, Split(pid))
    ensures Effect(s, s.procs[pid], Next(s, Split(pid)).procs[pid])
  {
    hide Inv, FindAlias, Demonitor, DropAlias, MonitorHalf;
    var p, p' := s.procs[pid], Next(s, Split(pid)).procs[pid];
    var sig := p.batch[0];
    if sig.AliasMessageSignal? {
      ProcessSane(s, pid);
      AliasMember(p.entries, sig.ref);
      var found := FindAlias(p.entries, sig.ref);
      if found.Some? {
        var m := ToAlias(sig.ref, sig.payload);
        assert MayReceive(s, p, m);
        assert p'.received == p.received + [m];
        if found.value.kind == ReplyDemonitor { ReplyFacts(s, pid, found.value, p'); }
      }
    } else {
      SetAsideFacts(s, pid, p');
    }
  }

  lemma HandleEffect(s: State, pid: Pid)
    requires Inv(s) && Enabled(s, Handle(pid))
    ensures Effect(s, s.procs[pid], Next(s, Handle(pid)).procs[pid])
  {
    hide WatchersAlive, DownsFinal, Apply, AfterDown, ReceivedOk;
    var p, p' := s.procs[pid], Next(s, Handle(pid)).procs[pid];
    var sig := p.pending[0];
    assert ProcessOk(s, pid, p) && sig in Queue(p) && SignalOk(s, pid, sig);
    if sig.MonitorDownSignal? {
      if AfterDown(p.entries, sig.ref, sig.from).Some? {
        RefsDetermine(s, pid, p.entries);
        AfterDownMembers(p.entries, sig.ref, sig.from);
        MonitorHalfMember(p.entries, sig.ref);
        assert MayReceive(s, p, Down(sig.ref));
        assert p'.received == p.received + [Down(sig.ref)];
      }
    } else {
      ApplyWatchers(s, pid, p.entries, sig);
    }
  }

  lemma SetMonitorEffect(s: State, pid: Pid, target: Pid, name: Option<nat>, alias: Option<AliasType>)
    requires Inv(s) && pid in s.procs
    ensures Effect(s, s.procs[pid], DoMonitor(s, pid, target, name, alias).procs[pid])
  {
    hide Inv, AddAlias, Sane;
    var p, p' := s.procs[pid], DoMonitor(s, pid, target, name, alias).procs[pid];
    ProcessSane(s, pid);
    if target != pid {
      if target in s.procs {
        AddSane(p.entries, Monitoring(target, s.nextRef, name));
        AddAliasMembers(Add(p.entries, Monitoring(target, s.nextRef, name)), s.nextRef, alias);
      } else {
        AddAliasMembers(p.entries, s.nextRef, if alias == Some(ExplicitUnalias) then alias else None);
        assert MayReceive(s, p, Down(s.nextRef)) && p'.received == p.received + [Down(s.nextRef)];
      }
    }
  }

  lemma DemonitorEffect(s: State, pid: Pid, ref: Ref)
    requires Inv(s) && pid in s.procs
    ensures Effect(s, s.procs[pid], DoDemonitor(s, pid, ref).procs[pid])
  {
    hide WatchersAlive, DownsFinal, Demonitor, MonitorHalf, ReceivedOk;
    var p := s.procs[pid];
    ProcessSane(s, pid);
    DemonitorOwn(s, pid, p.entries, ref);
    MonitorHalfMember(p.entries, ref);
    var half := MonitorHalf(p.entries, ref);
    if half.Some? && half.value.Monitoring? { EntryOk(s, pid, half.value); }
  }

  /** Whatever step a process takes, its messages and entries change as Effect allows;
      other processes' steps touch neither. */
  lemma StepEffect(s: State, step: Step, q: Pid)
    requires Inv(s) && Enabled(s, step) && q in s.procs && q in Next(s, step).procs
    ensures Effect(s, s.procs[q], Next(s, step).procs[q])
  {
    hide Inv, Effect, DoMonitor, DoDemonitor, DoSplit, DoHandle, FindAlias, Unalias, Farewell, Drain;
    var p, p' := s.procs[q], Next(s, step).procs[q];
    if step.pid != q || step.SendToAlias? || step.Detach? {
      OthersUntouched(s, step, q);
      EffectNothing(s, p, p');
    } else {
      match step
      case SetMonitor(pid, target, name, alias) => SetMonitorEffect(s, pid, target, name, alias);
      case CallDemonitor(pid, ref) => DemonitorEffect(s, pid, ref);
      case MakeAlias(pid, kind) =>
        MakeAliasEffect(s, pid, kind);
      case CallUnalias(pid, ref) =>
        if FindAlias(p.entries, ref).Some? {
          ProcessSane(s, pid);
          UnaliasMembers(p.entries, ref);
        }
        EffectNothing(s, p, p');
      case Split(pid) => SplitEffect(s, pid);
      case Handle(pid) => HandleEffect(s, pid);
      case _ => EffectNothing(s, p, p');
    }
  }

  lemma MakeAliasEffect(s: State, pid: Pid, kind: AliasType)
    requires pid in s.procs
    ensures Effect(s, s.procs[pid], Next(s, MakeAlias(pid, kind)).procs[pid])
  {}

  lemma OthersUntouched(s: State, step: Step, q: Pid)
    requires Enabled(s, step) && q in s.procs && q in Next(s, step).procs
    requires step.pid != q || step.SendToAlias? || step.Detach?
    ensures Next(s, step).procs[q].entries == s.procs[q].entries
    ensures Next(s, step).procs[q].received == s.procs[q].received
  {
    hide Farewell, Drain, MonitorHalf, FindAlias, Demonitor, Unalias, AfterDown, Apply, DropAlias, Add, AddAlias;
  }

  // ---- after a monitor or alias is gone ----

  lemma EffectQuiet(s: State, p: Process, p': Process, ref: Ref)
    requires Effect(s, p, p') && ref < s.nextRef
    ensures !IsMonitoring(p, ref) ==> !IsMonitoring(p', ref) && Downs(p'.received, ref) == Downs(p.received, ref)
    ensures !AliasActive(p, ref) ==> !AliasActive(p', ref) && ToAliases(p'.received, ref) == ToAliases(p.received, ref)
  {
    hide Downs, ToAliases;
    if p'.received != p.received {
      var m :| p'.received == p.received + [m] && MayReceive(s, p, m);
      ReceivedAppend(p.received, m, ref);
    }
  }

  /** pid is one and the same process from state i to state j. */
  ghost predicate Lives(states: seq<State>, i: nat, j: nat, pid: Pid)
    requires i <= j < |states|
  {
    forall k :: i <= k <= j ==> pid in states[k].procs
  }

  /** Once a monitor is gone, by demonitor, a reply or its DOWN, no further DOWN comes for
      it; once an alias is inactive, nothing more comes through it. */
  lemma {:induction false} RunQuiet(states: seq<State>, steps: seq<Step>, i: nat, j: nat, pid: Pid, ref: Ref)
    requires Run(states, steps) && i <= j < |states| && Lives(states, i, j, pid) && ref < states[i].nextRef
    ensures ref < states[j].nextRef
    ensures var p, p' := states[i].procs[pid], states[j].procs[pid];
            && (!IsMonitoring(p, ref) ==> !IsMonitoring(p', ref) && Downs(p'.received, ref) == Downs(p.received, ref))
            && (!AliasActive(p, ref) ==>
                  !AliasActive(p', ref) && ToAliases(p'.received, ref) == ToAliases(p.received, ref))
    decreases j
  {
    hide Inv, Standing, Next, Enabled, Effect, IsMonitoring, AliasActive, Downs, ToAliases;
    if i < j {
      RunQuiet(states, steps, i, j - 1, pid, ref);
      RunStanding(states, steps, j - 1);
      assert Enabled(states[j - 1], steps[j - 1]) && states[j] == Next(states[j - 1], steps[j - 1]);
      StepEffect(states[j - 1], steps[j - 1], pid);
      EffectQuiet(states[j - 1], states[j - 1].procs[pid], states[j].procs[pid], ref);
      RefsGrow(states[j - 1], steps[j - 1]);
    }
  }

  lemma RefsGrow(s: State, step: Step)
    requires Enabled(s, step)
    ensures s.nextRef <= Next(s, step).nextRef
    ensures forall ref: Ref :: ref in s.aliases && ref < s.nextRef ==>
              ref in Next(s, step).aliases && Next(s, step).aliases[ref] == s.aliases[ref]
  {
    hide Farewell, Drain, MonitorHalf, FindAlias, Demonitor, Unalias, AfterDown, Apply, DropAlias, Add, AddAlias, Post;
  }

  /** Demonitoring takes effect at once. */
  lemma DemonitorTakesEffect(s: State, pid: Pid, ref: Ref)
    requires Inv(s) && pid in s.procs
    ensures !IsMonitoring(Next(s, CallDemonitor(pid, ref)).procs[pid], ref)
  {
    hide WatchersAlive, DownsFinal, Demonitor, MonitorHalf, ReceivedOk;
    var p := s.procs[pid];
    ProcessSane(s, pid);
    DemonitorOwn(s, pid, p.entries, ref);
    MonitorHalfMember(p.entries, ref);
    RefsDetermine(s, pid, p.entries);
    var half := MonitorHalf(p.entries, ref);
    if half.Some? && half.value.Monitoring? {
      EntryOk(s, pid, half.value);
    } else {
      forall h | h in p.entries.halves && h.Monitoring? ensures h.ref != ref {
        if h.ref == ref { MonitorHalfIs(p.entries, h); }
      }
    }
  }

  // ---- how a monitor ends ----

  /** The DOWN came, or the one reply that takes the monitor along. */
  ghost predicate Ended(s: State, p: Process, ref: Ref) {
    || Downs(p.received, ref) == 1
    || (ref in s.aliases && s.aliases[ref].kind == ReplyDemonitor && ToAliases(p.received, ref) == 1)
  }

  lemma EndedFrom(s: State, pid: Pid, ref: Ref)
    requires Inv(s) && pid in s.procs
    requires var r := s.procs[pid].received;
             Downs(r, ref) > 0 || (ref in s.aliases && s.aliases[ref].kind == ReplyDemonitor && ToAliases(r, ref) > 0)
    ensures Ended(s, s.procs[pid], ref)
  {
    hide WatchersAlive, DownsFinal, EntriesOk, Downs, ToAliases;
    assert ProcessOk(s, pid, s.procs[pid]);
  }

  lemma SplitEnds(s: State, pid: Pid, h: Half)
    requires Inv(s) && Enabled(s, Split(pid)) && Holds(s.procs[pid], h)
    ensures var s' := Next(s, Split(pid));
            Holds(s'.procs[pid], h) || Ended(s', s'.procs[pid], h.ref)
  {
    hide Inv, FindAlias, Demonitor, DropAlias, MonitorHalf, Downs, ToAliases;
    var s' := Next(s, Split(pid));
    var p, p' := s.procs[pid], s'.procs[pid];
    var sig := p.batch[0];
    if sig.AliasMessageSignal? {
      ProcessSane(s, pid);
      AliasMember(p.entries, sig.ref);
      var found := FindAlias(p.entries, sig.ref);
      if found.Some? && found.value.kind == ReplyDemonitor {
        EntryOk(s, pid, found.value);
        DemonitorKeepsOthers(s, pid, sig.ref);
        if h.ref == sig.ref {
          ReceivedAppend(p.received, ToAlias(sig.ref, sig.payload), sig.ref);
          NextKeeps(s, Split(pid));
          EndedFrom(s', pid, h.ref);
        }
      }
    } else {
      SetAsideFacts(s, pid, p');
    }
  }

  lemma DemonitorKeepsOthers(s: State, pid: Pid, ref: Ref)
    requires Inv(s) && pid in s.procs
    ensures forall h :: h in s.procs[pid].entries.halves && h.ref != ref ==>
            h in Demonitor(s.procs[pid].entries, ref).halves
  {
    hide WatchersAlive, DownsFinal, Demonitor;
    ProcessSane(s, pid);
    DemonitorOwn(s, pid, s.procs[pid].entries, ref);
  }

  lemma HandleEnds(s: State, pid: Pid, h: Half)
    requires Inv(s) && Enabled(s, Handle(pid)) && Holds(s.procs[pid], h)
    ensures var s' := Next(s, Handle(pid));
            Holds(s'.procs[pid], h) || Ended(s', s'.procs[pid], h.ref)
  {
    hide WatchersAlive, DownsFinal, Apply, AfterDown, ReceivedOk, Downs, ToAliases;
    var s' := Next(s, Handle(pid));
    var p := s.procs[pid];
    var sig := p.pending[0];
    assert ProcessOk(s, pid, p) && sig in Queue(p) && SignalOk(s, pid, sig);
    if sig.MonitorDownSignal? {
      if AfterDown(p.entries, sig.ref, sig.from).Some? {
        RefsDetermine(s, pid, p.entries);
        AfterDownMembers(p.entries, sig.ref, sig.from);
        if h.ref == sig.ref {
          ReceivedAppend(p.received, Down(sig.ref), sig.ref);
          NextKeeps(s, Handle(pid));
          EndedFrom(s', pid, h.ref);
        }
      }
    } else {
      ApplyWatchers(s, pid, p.entries, sig);
    }
  }

  /** A step ends a standing monitor only by its DOWN, its reply, or a demonitor. */
  lemma StepEnds(s: State, step: Step, q: Pid, h: Half)
    requires Inv(s) && Enabled(s, step) && q in s.procs && q in Next(s, step).procs && Holds(s.procs[q], h)
    requires step != CallDemonitor(q, h.ref)
    ensures Holds(Next(s, step).procs[q], h) || Ended(Next(s, step), Next(s, step).procs[q], h.ref)
  {
    hide Inv, DoSplit, DoHandle, FindAlias, Unalias, Farewell, Drain, Demonitor, MonitorHalf, AddAlias, Add;
    if step.pid != q || step.SendToAlias? || step.Detach? {
      OthersUntouched(s, step, q);
    } else {
      match step
      case SetMonitor(pid, target, name, alias) =>
        ProcessSane(s, pid);
        MonitorEntriesMembers(s, pid, target, name, alias);
        AddAliasMembers(s.procs[pid].entries, s.nextRef, if alias == Some(ExplicitUnalias) then alias else None);
      case CallDemonitor(pid, ref) => DemonitorKeepsOthers(s, pid, ref);
      case MakeAlias(pid, kind) =>
        ProcessSane(s, pid);
        AddSane(s.procs[pid].entries, Alias(s.nextRef, kind));
      case CallUnalias(pid, ref) =>
        ProcessSane(s, pid);
        if FindAlias(s.procs[pid].entries, ref).Some? { UnaliasMembers(s.procs[pid].entries, ref); }
      case Split(pid) => SplitEnds(s, pid, h);
      case Handle(pid) => HandleEnds(s, pid, h);
      case _ =>
    }
  }

  /** Ended stays. */
  lemma EndedStays(s: State, step: Step, q: Pid, ref: Ref)
    requires Inv(s) && Enabled(s, step) && q in s.procs && q in Next(s, step).procs
    requires Ended(s, s.procs[q], ref) && ref < s.nextRef
    ensures Ended(Next(s, step), Next(s, step).procs[q], ref)
  {
    hide Next, Enabled, Effect, Downs, ToAliases, WatchersAlive, DownsFinal, EntriesOk, IsMonitoring, AliasActive;
    assert ProcessOk(s, q, s.procs[q]);
    StepEffect(s, step, q);
    EffectQuiet(s, s.procs[q], Next(s, step).procs[q], ref);
    RefsGrow(s, step);
  }

  /** While its owner lives and does not demonitor it, a monitor stands or has ended properly. */
  lemma {:induction false} RunEnds(states: seq<State>, steps: seq<Step>, i: nat, j: nat, pid: Pid, h: Half)
    requires Run(states, steps) && i <= j < |states| && Lives(states, i, j, pid) && Holds(states[i].procs[pid], h)
    requires CallDemonitor(pid, h.ref) !in steps[i..j]
    ensures h.ref < states[j].nextRef
    ensures Holds(states[j].procs[pid], h) || Ended(states[j], states[j].procs[pid], h.ref)
    decreases j
  {
    hide Inv, Standing, Next, Enabled, Ended, Holds;
    RunStanding(states, steps, i);
    if i == j {
      HoldsRef(states[i], pid, h);
    } else {
      assert steps[i..j] == steps[i..j - 1] + [steps[j - 1]];
      RunEnds(states, steps, i, j - 1, pid, h);
      RunStanding(states, steps, j - 1);
      assert Enabled(states[j - 1], steps[j - 1]) && states[j] == Next(states[j - 1], steps[j - 1]);
      RefsGrow(states[j - 1], steps[j - 1]);
      HoldsRef(states[i], pid, h);
      if Holds(states[j - 1].procs[pid], h) {
        StepEnds(states[j - 1], steps[j - 1], pid, h);
      } else {
        EndedStays(states[j - 1], steps[j - 1], pid, h.ref);
      }
    }
  }

  lemma HoldsRef(s: State, pid: Pid, h: Half)
    requires Inv(s) && pid in s.procs && Holds(s.procs[pid], h)
    ensures h.Monitoring? && h.ref < s.nextRef
  {
    EntryOk(s, pid, h);
  }

  /** The target is gone, the owner is not and has handled everything: the DOWN has come,
      exactly once, unless the owner took the monitor back or got its reply. */
  lemma RunDownArrives(states: seq<State>, steps: seq<Step>, i: nat, j: nat, pid: Pid, h: Half)
    requires Run(states, steps) && i <= j < |states| && Lives(states, i, j, pid) && Holds(states[i].procs[pid], h)
    requires CallDemonitor(pid, h.ref) !in steps[i..j]
    requires h.target !in states[j].procs && Queue(states[j].procs[pid]) == []
    ensures Ended(states[j], states[j].procs[pid], h.ref)
  {
    hide Inv, Standing, Ended;
    RunEnds(states, steps, i, j, pid, h);
    if Holds(states[j].procs[pid], h) { RunSettled(states, steps, j, pid, h); }
  }
}
