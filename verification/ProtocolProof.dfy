/** What every step of the monitor protocol keeps, and what follows for whole runs. */
module ProtocolProof {
  import opened Prelude
  import opened Monitors
  import opened Protocol

  // ---- entries ----

  /** At most one alias, and one half of a monitor, per reference. */
  ghost predicate OnePerRef(halves: seq<Half>) {
    forall x, y :: x in halves && y in halves && x.ref == y.ref && x.Alias? == y.Alias? ==> x == y
  }

  lemma RefsDetermine(s: State, pid: Pid, e: Entries)
    requires HistoryOk(s) && EntriesOk(s, pid, e)
    ensures OnePerRef(e.halves)
  {}

  /** Only the alias of ref can go, and a non-explicit one does. */
  ghost predicate OnlyAliasGone(e: Entries, e': Entries, ref: Ref) {
    && Sane(e') && (forall x :: x in e'.halves ==> x in e.halves)
    && (forall x :: x in e.halves && !(x.Alias? && x.ref == ref && x.kind != ExplicitUnalias) ==> x in e'.halves)
    && (forall x :: x in e'.halves && x.Alias? && x.ref == ref ==> x.kind == ExplicitUnalias)
  }

  lemma DropAliasMembers(e: Entries, ref: Ref)
    requires Sane(e) && OnePerRef(e.halves)
    ensures OnlyAliasGone(e, DropAlias(e, ref), ref)
  {
    ShortcutAgrees(e, ref);
    if WalkAlias(e, ref).Some? { UnaliasSane(e, ref); }
  }

  lemma RemoveMonitorMembers(e: Entries, ref: Ref)
    requires Sane(e) && OnePerRef(e.halves)
    ensures Sane(RemoveMonitor(e, ref))
    ensures forall x :: x in RemoveMonitor(e, ref).halves <==> x in e.halves && (x.ref != ref || x.Alias?)
  {
    var i := FindIndex(e.halves, MonitorKey(ref));
    if i < |e.halves| {
      AliasesWithout(e.halves, i);
      WithoutMember(e.halves, i);
    }
  }

  /** Demonitoring removes the monitor half of ref, and its alias unless explicit. */
  lemma DemonitorMembers(e: Entries, ref: Ref)
    requires Sane(e) && OnePerRef(e.halves)
    ensures Sane(Demonitor(e, ref))
    ensures forall x :: x in Demonitor(e, ref).halves ==> x in e.halves && (x.Alias? || x.ref != ref)
    ensures forall x :: x in e.halves && x.ref != ref ==> x in Demonitor(e, ref).halves
    ensures forall x :: x in Demonitor(e, ref).halves && x.Alias? && x.ref == ref ==> x.kind == ExplicitUnalias
  {
    DropAliasMembers(e, ref);
    RemoveMonitorMembers(DropAlias(e, ref), ref);
  }

  lemma AfterDownMembers(e: Entries, ref: Ref, from: Pid)
    requires Sane(e) && OnePerRef(e.halves) && AfterDown(e, ref, from).Some?
    ensures Sane(AfterDown(e, ref, from).value)
    ensures forall x :: x in AfterDown(e, ref, from).value.halves ==> x in e.halves && !(x.Monitoring? && x.ref == ref)
    ensures forall x :: x in e.halves && x.ref != ref ==> x in AfterDown(e, ref, from).value.halves
    ensures MonitorHalf(e, ref).Some? && MonitorHalf(e, ref).value.Monitoring?
  {
    var i := FindIndex(e.halves, MonitoringKey(ref, from));
    AliasesWithout(e.halves, i);
    WithoutMember(e.halves, i);
    var e1 := e.(halves := Without(e.halves, i));
    hide Without, FindIndex, Aliases;
    DropAliasMembers(e1, ref);
    assert e.halves[i] in e.halves;
    MonitorHalfIs(e, e.halves[i]);
  }

  lemma MonitorHalfIs(e: Entries, h: Half)
    requires OnePerRef(e.halves) && h in e.halves && !h.Alias?
    ensures MonitorHalf(e, h.ref) == Some(h)
  {
    var i := FindIndex(e.halves, MonitorKey(h.ref));
    var k :| 0 <= k < |e.halves| && e.halves[k] == h;
    assert Matches(e.halves[k], MonitorKey(h.ref));
  }

  // ---- watchers under queued signals ----

  lemma {:induction false} DrainWatchSnoc(w: set<(Pid, Ref)>, q: seq<Signal>, sig: Signal)
    ensures DrainWatch(w, q + [sig]) == ApplyWatch(DrainWatch(w, q), sig)
    decreases |q|
  {
    if |q| == 0 {
      assert q + [sig] == [sig] && [sig][1..] == [];
    } else {
      assert (q + [sig])[1..] == q[1..] + [sig];
      DrainWatchSnoc(ApplyWatch(w, q[0]), q[1..], sig);
    }
  }

  lemma {:induction false} DrainWatchMono(w: set<(Pid, Ref)>, w': set<(Pid, Ref)>, q: seq<Signal>)
    requires w <= w'
    ensures DrainWatch(w, q) <= DrainWatch(w', q)
    decreases |q|
  {
    if |q| > 0 { DrainWatchMono(ApplyWatch(w, q[0]), ApplyWatch(w', q[0]), q[1..]); }
  }

  /** Signals that neither add nor remove watchers can be skipped. */
  ghost predicate Inert(sig: Signal) { sig.MonitorDownSignal? || sig.AliasMessageSignal? }

  lemma {:induction false} DrainWatchSkip(w: set<(Pid, Ref)>, a: seq<Signal>, sig: Signal, b: seq<Signal>)
    requires Inert(sig)
    ensures DrainWatch(w, a + [sig] + b) == DrainWatch(w, a + b)
    decreases |a|
  {
    if |a| == 0 {
      assert a + [sig] + b == [sig] + b && ([sig] + b)[1..] == b && a + b == b;
    } else {
      assert (a + [sig] + b)[1..] == a[1..] + [sig] + b && (a + b)[1..] == a[1..] + b;
      DrainWatchSkip(ApplyWatch(w, a[0]), a[1..], sig, b);
    }
  }

  /** Handling a signal early changes the watchers as the queue said it would, and
      touches no monitor the process has set itself. */
  lemma ApplyWatchers(s: State, pid: Pid, e: Entries, sig: Signal)
    requires HistoryOk(s) && EntriesOk(s, pid, e) && SignalOk(s, pid, sig)
    ensures Watchers(Apply(e, sig).halves) == ApplyWatch(Watchers(e.halves), sig)
    ensures EntriesOk(s, pid, Apply(e, sig))
    ensures forall h :: h in e.halves && h.Monitoring? ==> h in Apply(e, sig).halves
    ensures forall h :: h in Apply(e, sig).halves && !h.Monitored? ==> h in e.halves
  {
    RefsDetermine(s, pid, e);
    match sig
    case MonitorSignal(h) =>
      AddSane(e, h);
    case DemonitorSignal(ref) =>
      DemonitorMembers(e, ref);
      var w, w' := ApplyWatch(Watchers(e.halves), sig), Watchers(Demonitor(e, ref).halves);
      forall x | x in w ensures x in w' {
        var h :| h in e.halves && h.Monitored? && (h.watcher, h.ref) == x;
        assert h in Demonitor(e, ref).halves;
      }
    case _ =>
  }

  lemma {:induction false} DrainWatchers(s: State, pid: Pid, e: Entries, q: seq<Signal>)
    requires HistoryOk(s) && EntriesOk(s, pid, e) && (forall sig :: sig in q ==> SignalOk(s, pid, sig))
    ensures Watchers(Drain(e, q).halves) == DrainWatch(Watchers(e.halves), q)
    ensures EntriesOk(s, pid, Drain(e, q))
    ensures forall h :: h in e.halves && h.Monitoring? ==> h in Drain(e, q).halves
    decreases |q|
  {
    if |q| > 0 {
      ApplyWatchers(s, pid, e, q[0]);
      DrainWatchers(s, pid, Apply(e, q[0]), q[1..]);
    }
  }

  /** In every state that satisfies the invariant, a terminating process finds the
      target of each DOWN it has to send. */
  lemma TerminateFindsTargets(s: State, pid: Pid)
    requires Inv(s) && Enabled(s, Terminate(pid))
    ensures TargetsFound(s, pid)
  {
    var p := s.procs[pid];
    assert Queue(p) == p.inbox;
    DrainWatchers(s, pid, p.entries, p.inbox);
    var e := Drain(p.entries, p.inbox);
    forall h | h in e.halves && h.Monitored? ensures h.watcher in s.procs && h.watcher != pid {
      assert (h.watcher, h.ref) in Watchers(e.halves);
      assert WatcherAlive(s, pid, (h.watcher, h.ref));
      assert HalfOk(s, pid, h);
    }
  }

  // ---- received messages ----

  lemma {:induction false} ReceivedAppend(msgs: seq<Message>, m: Message, ref: Ref)
    ensures Downs(msgs + [m], ref) == Downs(msgs, ref) + (if m == Down(ref) then 1 else 0)
    ensures ToAliases(msgs + [m], ref) == ToAliases(msgs, ref) + (if m.ToAlias? && m.ref == ref then 1 else 0)
  {
    if |msgs| == 0 {
      assert msgs + [m] == [m];
    } else {
      assert (msgs + [m])[1..] == msgs[1..] + [m];
      ReceivedAppend(msgs[1..], m, ref);
    }
  }

  /** No new monitor set by the process and no new alias. */
  ghost predicate NoNewOwn(p: Process, p': Process) {
    forall h :: h in p'.entries.halves && !h.Monitored? ==> h in p.entries.halves
  }

  lemma OwnShrink(p: Process, p': Process, ref: Ref)
    requires NoNewOwn(p, p')
    ensures IsMonitoring(p', ref) ==> IsMonitoring(p, ref)
    ensures AliasActive(p', ref) ==> AliasActive(p, ref)
  {}

  lemma ReceivedKeep(s: State, p: Process, p': Process)
    requires ReceivedOk(s, p) && NoNewOwn(p, p') && p'.received == p.received
    ensures ReceivedOk(s, p')
  {
    forall ref: Ref ensures IsMonitoring(p', ref) ==> IsMonitoring(p, ref) { OwnShrink(p, p', ref); }
    forall ref: Ref ensures AliasActive(p', ref) ==> AliasActive(p, ref) { OwnShrink(p, p', ref); }
    hide IsMonitoring, AliasActive, NoNewOwn;
  }

  /** One DOWN more, for a monitor that stood until now or never did. */
  lemma ReceivedDown(s: State, p: Process, p': Process, ref: Ref)
    requires ReceivedOk(s, p) && NoNewOwn(p, p') && p'.received == p.received + [Down(ref)]
    requires ref < s.nextRef && Downs(p.received, ref) == 0 && !IsMonitoring(p', ref)
    ensures ReceivedOk(s, p')
  {
    forall r: Ref
      ensures Downs(p'.received, r) == Downs(p.received, r) + (if r == ref then 1 else 0)
      ensures ToAliases(p'.received, r) == ToAliases(p.received, r)
      ensures IsMonitoring(p', r) ==> IsMonitoring(p, r)
      ensures AliasActive(p', r) ==> AliasActive(p, r)
    {
      ReceivedAppend(p.received, Down(ref), r);
      OwnShrink(p, p', r);
    }
    hide IsMonitoring, AliasActive, NoNewOwn, Downs, ToAliases;
  }

  /** One message more through an active alias; a reply alias is gone afterwards. */
  lemma ReceivedAlias(s: State, p: Process, p': Process, ref: Ref, payload: nat)
    requires ReceivedOk(s, p) && NoNewOwn(p, p') && p'.received == p.received + [ToAlias(ref, payload)]
    requires ref in s.aliases && AliasActive(p, ref)
    requires s.aliases[ref].kind == ReplyDemonitor ==> !AliasActive(p', ref)
    ensures ReceivedOk(s, p')
  {
    forall r: Ref
      ensures Downs(p'.received, r) == Downs(p.received, r)
      ensures ToAliases(p'.received, r) == ToAliases(p.received, r) + (if r == ref then 1 else 0)
      ensures IsMonitoring(p', r) ==> IsMonitoring(p, r)
      ensures AliasActive(p', r) ==> AliasActive(p, r)
    {
      ReceivedAppend(p.received, ToAlias(ref, payload), r);
      OwnShrink(p, p', r);
    }
    hide IsMonitoring, AliasActive, NoNewOwn, Downs, ToAliases;
  }

  // ---- a step of one process that sets no monitor ----

  /** The references mean what they meant. */
  ghost predicate SameRefs(s: State, s': State) {
    s'.monitors == s.monitors && s'.aliases == s.aliases && s'.nextRef == s.nextRef
  }

  lemma OkInSameRefs(s: State, s': State, pid: Pid, p: Process)
    requires SameRefs(s, s') && ProcessOk(s, pid, p)
    ensures ProcessOk(s', pid, p)
  {}

  /** Watchers only go, no DOWN is new, and the watchers left keep their half. */
  ghost predicate Settles(s: State, s': State) {
    && s'.procs.Keys == s.procs.Keys
    && (forall p :: p in s.procs ==> Watch(s'.procs[p]) <= Watch(s.procs[p]))
    && (forall p: Pid, ref: Ref, from: Pid :: p in s.procs && DownQueued(s'.procs[p], ref, from) ==>
         DownQueued(s.procs[p], ref, from))
    && (forall p, w :: p in s.procs && w in Watch(s'.procs[p]) ==> WatcherAlive(s', p, w))
  }

  lemma SettlesKeeps(s: State, s': State)
    requires Inv(s) && SameRefs(s, s') && Settles(s, s')
    requires forall p :: p in s'.procs ==> ProcessOk(s', p, s'.procs[p])
    ensures Inv(s')
  {
    hide Watch, ProcessOk, WatcherAlive, DownQueued;
    forall q: Pid, ref: Ref, from: Pid | q in s'.procs && from in s'.procs && DownQueued(s'.procs[q], ref, from)
      ensures (q, ref) !in Watch(s'.procs[from])
    {
      assert DownQueued(s.procs[q], ref, from);
    }
  }

  /** A process changes only itself: it gains no watcher and no queued DOWN, and a
      monitor it drops is one its target will not fire. */
  ghost predicate OwnChange(s: State, pid: Pid, p': Process)
    requires pid in s.procs
  {
    var p := s.procs[pid];
    && ProcessOk(s, pid, p') && Watch(p') <= Watch(p)
    && (forall ref: Ref, from: Pid :: DownQueued(p', ref, from) ==> DownQueued(p, ref, from))
    && (forall h :: h in p.entries.halves && h.Monitoring? && h !in p'.entries.halves ==>
         h.target !in s.procs || (pid, h.ref) !in Watch(s.procs[h.target]))
  }

  lemma OwnStep(s: State, pid: Pid, p': Process)
    requires Inv(s) && pid in s.procs && OwnChange(s, pid, p')
    ensures Inv(s.(procs := s.procs[pid := p']))
  {
    hide Watch, ProcessOk, DownQueued, HistoryOk;
    var s' := s.(procs := s.procs[pid := p']);
    forall q | q in s'.procs ensures ProcessOk(s', q, s'.procs[q]) { OkInSameRefs(s, s', q, s'.procs[q]); }
    forall p: Pid, w: (Pid, Ref) | p in s.procs && w in Watch(s'.procs[p]) ensures WatcherAlive(s', p, w) {
      assert w in Watch(s.procs[p]);
      assert WatcherAlive(s, p, w);
    }
    hide WatcherAlive;
    SettlesKeeps(s, s');
  }

  // ---- posting ----

  lemma QueuePost(p: Process, sig: Signal)
    ensures Queue(p.(inbox := p.inbox + [sig])) == Queue(p) + [sig]
    ensures Watch(p.(inbox := p.inbox + [sig])) == ApplyWatch(Watch(p), sig)
  {
    assert p.pending + p.batch + (p.inbox + [sig]) == p.pending + p.batch + p.inbox + [sig];
    DrainWatchSnoc(Watchers(p.entries.halves), Queue(p), sig);
  }

  /** A demonitor or alias message in the mailbox of its addressee. */
  lemma PostStep(s: State, t: Pid, sig: Signal)
    requires Inv(s) && SignalOk(s, t, sig) && (sig.DemonitorSignal? || sig.AliasMessageSignal?)
    ensures Inv(s.(procs := Post(s.procs, t, sig)))
    ensures t in s.procs && sig.DemonitorSignal? ==>
              forall x :: x in Watch(Post(s.procs, t, sig)[t]) ==> x.1 != sig.ref
  {
    if t in s.procs {
      var p := s.procs[t];
      var p' := p.(inbox := p.inbox + [sig]);
      QueuePost(p, sig);
      ReceivedKeep(s, p, p');
      assert ProcessOk(s, t, p');
      OwnStep(s, t, p');
    } else {
      assert s.(procs := Post(s.procs, t, sig)) == s;
    }
  }

  // ---- the steps of one process ----

  lemma KeptWatch(p: Process, p': Process)
    requires Queue(p') == Queue(p) && Watchers(p'.entries.halves) <= Watchers(p.entries.halves)
    ensures Watch(p') <= Watch(p)
  {
    DrainWatchMono(Watchers(p'.entries.halves), Watchers(p.entries.halves), Queue(p));
  }

  lemma DetachKeeps(s: State, pid: Pid)
    requires Inv(s) && Enabled(s, Detach(pid))
    ensures Inv(Next(s, Detach(pid)))
  {
    var p := s.procs[pid];
    var p' := p.(inbox := [], batch := p.inbox);
    assert Queue(p') == Queue(p);
    ReceivedKeep(s, p, p');
    OwnStep(s, pid, p');
  }

  lemma CallUnaliasKeeps(s: State, pid: Pid, ref: Ref)
    requires Inv(s) && pid in s.procs
    ensures Inv(Next(s, CallUnalias(pid, ref)))
  {
    hide Unalias, WalkAlias, FindAlias, EntriesOk, SignalOk, Watch, WatchersAlive, DownsFinal, HistoryOk, Watchers;
    var p := s.procs[pid];
    if FindAlias(p.entries, ref).Some? {
      assert ProcessOk(s, pid, p);
      var p' := p.(entries := Unalias(p.entries, ref));
      UnaliasEntries(s, pid, p, ref);
      ReceivedKeep(s, p, p');
      KeptWatch(p, p');
      OwnStep(s, pid, p');
    }
  }

  /** Without the alias: the same monitors, and nothing new. */
  lemma UnaliasEntries(s: State, pid: Pid, p: Process, ref: Ref)
    requires ProcessOk(s, pid, p) && FindAlias(p.entries, ref).Some?
    ensures var e := Unalias(p.entries, ref); var p' := p.(entries := e);
            && EntriesOk(s, pid, e) && NoNewOwn(p, p') && Queue(p') == Queue(p)
            && (forall h :: h in p.entries.halves && h.Monitoring? ==> h in e.halves)
            && Watchers(e.halves) <= Watchers(p.entries.halves)
  {
    hide SignalOk, Watch, WatchersAlive, DownsFinal, HistoryOk;
    ShortcutAgrees(p.entries, ref);
    UnaliasSane(p.entries, ref);
    assert WalkAlias(p.entries, ref).value.Alias?;
  }

  /** What demonitoring does to a process's own entries. */
  lemma DemonitorOwn(s: State, pid: Pid, e: Entries, ref: Ref)
    requires HistoryOk(s) && EntriesOk(s, pid, e)
    ensures EntriesOk(s, pid, Demonitor(e, ref)) && Watchers(Demonitor(e, ref).halves) <= Watchers(e.halves)
    ensures forall h :: h in Demonitor(e, ref).halves ==> h in e.halves && !(h.Monitoring? && h.ref == ref)
    ensures forall h :: h in e.halves && h.ref != ref ==> h in Demonitor(e, ref).halves
    ensures forall h :: h in Demonitor(e, ref).halves && h.Alias? && h.ref == ref ==> h.kind == ExplicitUnalias
  {
    RefsDetermine(s, pid, e);
    DemonitorMembers(e, ref);
  }

  lemma MonitorHalfMember(e: Entries, ref: Ref)
    ensures MonitorHalf(e, ref).Some? ==>
              MonitorHalf(e, ref).value in e.halves && !MonitorHalf(e, ref).value.Alias? &&
                MonitorHalf(e, ref).value.ref == ref
  {}

  lemma CallDemonitorKeeps(s: State, pid: Pid, ref: Ref)
    requires Inv(s) && pid in s.procs
    ensures Inv(Next(s, CallDemonitor(pid, ref)))
  {
    var p := s.procs[pid];
    var p' := p.(entries := Demonitor(p.entries, ref));
    assert ProcessOk(s, pid, p);
    DemonitorOwn(s, pid, p.entries, ref);
    MonitorHalfMember(p.entries, ref);
    hide Demonitor, MonitorHalf, HalfOk;
    assert Queue(p') == Queue(p);
    ReceivedKeep(s, p, p');
    hide ReceivedOk, Watch, WatchersAlive, DownsFinal, HistoryOk, Post;
    if MonitorHalf(p.entries, ref).Some? && MonitorHalf(p.entries, ref).value.Monitoring? {
      DemonitorAndTell(s, pid, ref, MonitorHalf(p.entries, ref).value, p');
    }
  }

  /** Removing the own half of a monitor and telling its target. */
  lemma DemonitorAndTell(s: State, pid: Pid, ref: Ref, h: Half, p': Process)
    requires Inv(s) && pid in s.procs && h.Monitoring? && h.ref == ref && h in s.procs[pid].entries.halves
    requires p'.entries == Demonitor(s.procs[pid].entries, ref) && ReceivedOk(s, p')
    requires Skips(s.procs[pid], p')
    ensures Inv(s.(procs := Post(s.procs[pid := p'], h.target, DemonitorSignal(ref))))
  {
    var p := s.procs[pid];
    assert ProcessOk(s, pid, p);
    assert HalfOk(s, pid, h);
    assert ref in s.monitors && s.monitors[ref].target == h.target && h.target != pid;
    RefsDetermine(s, pid, p.entries);
    assert forall x :: x in p.entries.halves && x.Monitoring? && x.ref == ref ==> x == h;
    hide Watch, Demonitor, ReceivedOk, HalfOk, HistoryOk, WatchersAlive, DownsFinal;
    var s1 := s.(procs := Post(s.procs, h.target, DemonitorSignal(ref)));
    PostStep(s, h.target, DemonitorSignal(ref));
    DemonitorOwn(s, pid, p.entries, ref);
    QueueSkips(p, p');
    SkipsMembers(p, p');
    assert ProcessOk(s, pid, p');
    OkInSameRefs(s, s1, pid, p');
    assert OwnChange(s1, pid, p');
    OwnStep(s1, pid, p');
    PostCommutes(s.procs, pid, p', h.target, DemonitorSignal(ref));
  }

  lemma PostCommutes(procs: map<Pid, Process>, pid: Pid, p: Process, t: Pid, sig: Signal)
    requires t != pid
    ensures Post(procs[pid := p], t, sig) == Post(procs, t, sig)[pid := p]
  {}

  /** p' has p's queue without one inert signal. */
  ghost predicate SkipsOne(p: Process, p': Process, a: seq<Signal>, sig: Signal, b: seq<Signal>) {
    Inert(sig) && Queue(p) == a + [sig] + b && Queue(p') == a + b
  }

  /** p' has p's queue, possibly without one inert signal. */
  ghost predicate Skips(p: Process, p': Process) {
    Queue(p') == Queue(p) || (exists a, b, sig :: SkipsOne(p, p', a, sig, b))
  }

  lemma SkipsMembers(p: Process, p': Process)
    requires Skips(p, p')
    ensures forall sig :: sig in Queue(p') ==> sig in Queue(p)
  {}

  lemma QueueSkips(p: Process, p': Process)
    requires Watchers(p'.entries.halves) <= Watchers(p.entries.halves) && Skips(p, p')
    ensures Watch(p') <= Watch(p)
  {
    DrainWatchMono(Watchers(p'.entries.halves), Watchers(p.entries.halves), Queue(p'));
    if Queue(p') != Queue(p) {
      var a, b, sig :| SkipsOne(p, p', a, sig, b);
      DrainWatchSkip(Watchers(p.entries.halves), a, sig, b);
    }
  }

  // ---- the first pass over a batch ----

  /** Taking the head of the batch off the queue. */
  lemma BatchHead(p: Process, p': Process)
    requires |p.batch| > 0 && Inert(p.batch[0])
    requires p'.inbox == p.inbox && p'.batch == p.batch[1..] && p'.pending == p.pending
    ensures Skips(p, p')
  {
    assert Queue(p) == p.pending + [p.batch[0]] + (p.batch[1..] + p.inbox);
    assert Queue(p') == p.pending + (p.batch[1..] + p.inbox);
    assert SkipsOne(p, p', p.pending, p.batch[0], p.batch[1..] + p.inbox);
  }

  /** Entries unchanged, messages in order, one inert signal fewer. */
  lemma SkipStep(s: State, pid: Pid, p': Process)
    requires Inv(s) && pid in s.procs && p'.entries == s.procs[pid].entries
    requires ReceivedOk(s, p') && Skips(s.procs[pid], p')
    ensures Inv(s.(procs := s.procs[pid := p']))
  {
    var p := s.procs[pid];
    assert ProcessOk(s, pid, p);
    hide Watch, ReceivedOk, EntriesOk, SignalOk, HistoryOk, WatchersAlive, DownsFinal;
    QueueSkips(p, p');
    SkipsMembers(p, p');
    OwnStep(s, pid, p');
  }

  lemma AliasMember(e: Entries, ref: Ref)
    requires Sane(e)
    ensures FindAlias(e, ref).Some? ==>
              FindAlias(e, ref).value in e.halves && FindAlias(e, ref).value.Alias? &&
                FindAlias(e, ref).value.ref == ref
    ensures FindAlias(e, ref).None? ==> forall h :: h in e.halves && h.Alias? ==> h.ref != ref
  {
    ShortcutAgrees(e, ref);
    var i := FindIndex(e.halves, AliasKey(ref));
    if i == |e.halves| {
      forall h | h in e.halves && h.Alias? ensures h.ref != ref {
        var k :| 0 <= k < |e.halves| && e.halves[k] == h;
        assert !Matches(e.halves[k], AliasKey(ref));
      }
    }
  }

  /** A message through an alias. */
  lemma AliasMessageKeeps(s: State, pid: Pid)
    requires Inv(s) && Enabled(s, Split(pid)) && s.procs[pid].batch[0].AliasMessageSignal?
    ensures Inv(Next(s, Split(pid)))
  {
    hide Inv, FindAlias, Sane, EntriesOk, ReceivedOk, Demonitor, MonitorHalf, Skips;
    var p := s.procs[pid];
    var ref, payload := p.batch[0].ref, p.batch[0].payload;
    var p1 := p.(batch := p.batch[1..]);
    ProcessSane(s, pid);
    BatchHead(p, p1);
    AliasMember(p.entries, ref);
    ReceivedUnchanged(s, pid, p);
    var found := FindAlias(p.entries, ref);
    if found.None? {
      ReceivedKeep(s, p, p1);
      SkipStep(s, pid, p1);
    } else if found.value.kind == ReplyDemonitor {
      ReplyKeeps(s, pid, found.value);
    } else {
      var p2 := p1.(received := p1.received + [ToAlias(ref, payload)]);
      EntryOk(s, pid, found.value);
      ReceivedAlias(s, p, p2, ref, payload);
      BatchHead(p, p2);
      SkipStep(s, pid, p2);
    }
  }

  lemma ProcessSane(s: State, pid: Pid)
    requires Inv(s) && pid in s.procs
    ensures EntriesOk(s, pid, s.procs[pid].entries) && Sane(s.procs[pid].entries)
  {
    assert ProcessOk(s, pid, s.procs[pid]);
  }

  lemma EntryOk(s: State, pid: Pid, h: Half)
    requires Inv(s) && pid in s.procs && h in s.procs[pid].entries.halves
    ensures HalfOk(s, pid, h)
  {
    assert ProcessOk(s, pid, s.procs[pid]);
  }

  /** Demonitoring through a reply alias leaves the alias inactive. */
  lemma ReplyFacts(s: State, pid: Pid, h: Half, p': Process)
    requires Inv(s) && pid in s.procs && h in s.procs[pid].entries.halves && h.Alias? && h.kind == ReplyDemonitor
    requires p'.entries == Demonitor(s.procs[pid].entries, h.ref)
    ensures ReceivedOk(s, s.procs[pid]) && h.ref in s.aliases
    ensures AliasActive(s.procs[pid], h.ref) && !AliasActive(p', h.ref) && NoNewOwn(s.procs[pid], p')
  {
    hide Demonitor, WatchersAlive, DownsFinal;
    var p := s.procs[pid];
    assert ProcessOk(s, pid, p) && HalfOk(s, pid, h);
    DemonitorOwn(s, pid, p.entries, h.ref);
  }

  /** The first message through a reply alias takes the alias and its monitor along. */
  lemma ReplyKeeps(s: State, pid: Pid, h: Half)
    requires Inv(s) && Enabled(s, Split(pid)) && s.procs[pid].batch[0].AliasMessageSignal?
    requires h.Alias? && h.ref == s.procs[pid].batch[0].ref && h.kind == ReplyDemonitor
    requires h in s.procs[pid].entries.halves && FindAlias(s.procs[pid].entries, h.ref) == Some(h)
    ensures Inv(Next(s, Split(pid)))
  {
    hide Inv, Demonitor, MonitorHalf, FindAlias, ReceivedOk, AliasActive, NoNewOwn, Skips;
    var p := s.procs[pid];
    var ref, payload := h.ref, p.batch[0].payload;
    var p2 := p.(batch := p.batch[1..], received := p.received + [ToAlias(ref, payload)],
      entries := Demonitor(p.entries, ref));
    ReplyFacts(s, pid, h, p2);
    MonitorHalfMember(p.entries, ref);
    var half := MonitorHalf(p.entries, ref);
    ReceivedAlias(s, p, p2, ref, payload);
    BatchHead(p, p2);
    if half.Some? && half.value.Monitoring? {
      DemonitorAndTell(s, pid, ref, half.value, p2);
    } else {
      NothingToTell(s, pid, ref, p2);
    }
  }

  lemma NothingToTell(s: State, pid: Pid, ref: Ref, p': Process)
    requires Inv(s) && pid in s.procs && p'.entries == Demonitor(s.procs[pid].entries, ref)
    requires MonitorHalf(s.procs[pid].entries, ref).None? || !MonitorHalf(s.procs[pid].entries, ref).value.Monitoring?
    requires ReceivedOk(s, p') && Skips(s.procs[pid], p')
    ensures Inv(s.(procs := s.procs[pid := p']))
  {
    var p := s.procs[pid];
    assert ProcessOk(s, pid, p);
    DemonitorOwn(s, pid, p.entries, ref);
    RefsDetermine(s, pid, p.entries);
    forall h | h in p.entries.halves && h.Monitoring? ensures h.ref != ref {
      if h.ref == ref { MonitorHalfIs(p.entries, h); }
    }
    hide Demonitor, MonitorHalf, Watch, ReceivedOk, HalfOk, HistoryOk, WatchersAlive, DownsFinal;
    QueueSkips(p, p');
    SkipsMembers(p, p');
    OwnStep(s, pid, p');
  }

  lemma SetAsideFacts(s: State, pid: Pid, p': Process)
    requires Inv(s) && Enabled(s, Split(pid)) && !s.procs[pid].batch[0].AliasMessageSignal?
    requires var p := s.procs[pid];
             p'.entries == (if p.batch[0].MonitorDownSignal? then DropAlias(p.entries, p.batch[0].ref) else p.entries)
    ensures ProcessOk(s, pid, s.procs[pid]) && EntriesOk(s, pid, p'.entries) && NoNewOwn(s.procs[pid], p')
    ensures Watchers(p'.entries.halves) <= Watchers(s.procs[pid].entries.halves)
    ensures forall h :: h in s.procs[pid].entries.halves && h.Monitoring? ==> h in p'.entries.halves
  {
    hide DropAlias, WatchersAlive, DownsFinal, ReceivedOk;
    var p := s.procs[pid];
    assert ProcessOk(s, pid, p);
    RefsDetermine(s, pid, p.entries);
    if p.batch[0].MonitorDownSignal? { DropAliasMembers(p.entries, p.batch[0].ref); }
  }

  /** Any other signal is set aside; a DOWN takes its alias along. */
  lemma SetAsideKeeps(s: State, pid: Pid)
    requires Inv(s) && Enabled(s, Split(pid)) && !s.procs[pid].batch[0].AliasMessageSignal?
    ensures Inv(Next(s, Split(pid)))
  {
    hide DropAlias, Inv, ReceivedOk, EntriesOk, SignalOk, NoNewOwn, Watch, DoAliasMessage;
    var p := s.procs[pid];
    var sig := p.batch[0];
    var e := if sig.MonitorDownSignal? then DropAlias(p.entries, sig.ref) else p.entries;
    var p' := p.(entries := e, batch := p.batch[1..], pending := p.pending + [sig]);
    SetAsideFacts(s, pid, p');
    assert Queue(p') == Queue(p);
    ReceivedKeep(s, p, p');
    KeptWatch(p, p');
    OwnStep(s, pid, p');
  }

  // ---- the second pass ----

  lemma PendingHead(p: Process, p': Process)
    requires p.batch == [] && |p.pending| > 0
    requires p'.inbox == p.inbox && p'.batch == p.batch && p'.pending == p.pending[1..]
    ensures Queue(p) == [p.pending[0]] + Queue(p')
  {}

  lemma HandleKeeps(s: State, pid: Pid)
    requires Inv(s) && Enabled(s, Handle(pid)) && !s.procs[pid].pending[0].MonitorDownSignal?
    ensures Inv(Next(s, Handle(pid)))
  {
    var p := s.procs[pid];
    var sig := p.pending[0];
    var p' := p.(pending := p.pending[1..], entries := Apply(p.entries, sig));
    assert ProcessOk(s, pid, p);
    PendingHead(p, p');
    assert sig in Queue(p);
    ApplyWatchers(s, pid, p.entries, sig);
    assert Watch(p') == Watch(p) by { assert ([sig] + Queue(p'))[1..] == Queue(p'); }
    ReceivedKeep(s, p, p');
    hide Apply, Watch, ReceivedOk, EntriesOk, SignalOk, HistoryOk, WatchersAlive, DownsFinal;
    OwnStep(s, pid, p');
  }

  lemma HandleDownKeeps(s: State, pid: Pid)
    requires Inv(s) && Enabled(s, Handle(pid)) && s.procs[pid].pending[0].MonitorDownSignal?
    ensures Inv(Next(s, Handle(pid)))
  {
    hide Inv, AfterDown, ReceivedOk, Apply;
    var p := s.procs[pid];
    var sig := p.pending[0];
    var p1 := p.(pending := p.pending[1..]);
    PendingHead(p, p1);
    assert SkipsOne(p, p1, [], sig, Queue(p1));
    var after := AfterDown(p.entries, sig.ref, sig.from);
    assert DownQueued(p, sig.ref, sig.from);
    if after.None? {
      ReceivedUnchanged(s, pid, p1);
      SkipStep(s, pid, p1);
    } else {
      var p2 := p1.(entries := after.value, received := p1.received + [Down(sig.ref)]);
      assert Queue(p2) == Queue(p1);
      assert SkipsOne(p, p2, [], sig, Queue(p1));
      DownDelivered(s, pid, sig.ref, sig.from, p2);
    }
  }

  lemma ReceivedUnchanged(s: State, pid: Pid, p': Process)
    requires Inv(s) && pid in s.procs && p'.received == s.procs[pid].received && p'.entries == s.procs[pid].entries
    ensures ReceivedOk(s, p')
  {
    hide WatchersAlive, DownsFinal, EntriesOk, SignalOk, HistoryOk;
    assert ProcessOk(s, pid, s.procs[pid]);
    ReceivedKeep(s, s.procs[pid], p');
  }

  /** A DOWN is delivered once: its monitor stood, and does not any more. */
  lemma DownDelivered(s: State, pid: Pid, ref: Ref, from: Pid, p': Process)
    requires Inv(s) && pid in s.procs && DownQueued(s.procs[pid], ref, from) && Skips(s.procs[pid], p')
    requires AfterDown(s.procs[pid].entries, ref, from) == Some(p'.entries)
    requires p'.received == s.procs[pid].received + [Down(ref)]
    ensures Inv(s.(procs := s.procs[pid := p']))
  {
    var p := s.procs[pid];
    assert ProcessOk(s, pid, p);
    RefsDetermine(s, pid, p.entries);
    AfterDownMembers(p.entries, ref, from);
    MonitorHalfMember(p.entries, ref);
    assert SignalOk(s, pid, MonitorDownSignal(ref, from));
    assert forall h :: h in p.entries.halves && h.Monitoring? && h.ref == ref ==> h.target == from;
    assert EntriesOk(s, pid, p'.entries) && IsMonitoring(p, ref) && ref < s.nextRef;
    hide AfterDown, MonitorHalf, Watch, EntriesOk, HistoryOk;
    ReceivedDown(s, p, p', ref);
    QueueSkips(p, p');
    SkipsMembers(p, p');
    OwnStep(s, pid, p');
  }

  // ---- new references ----

  /** Nothing yet uses the next reference. */
  ghost predicate Unused(p: Process, ref: Ref) {
    && (forall h :: h in p.entries.halves ==> h.ref != ref)
    && (forall from: Pid :: !DownQueued(p, ref, from))
    && Downs(p.received, ref) == 0 && ToAliases(p.received, ref) == 0
  }

  lemma NextIsUnused(s: State, pid: Pid)
    requires Inv(s) && pid in s.procs
    ensures Unused(s.procs[pid], s.nextRef) && s.nextRef !in s.monitors && s.nextRef !in s.aliases
  {
    var p := s.procs[pid];
    assert ProcessOk(s, pid, p);
    forall ref: Ref, from: Pid | DownQueued(p, ref, from) ensures ref < s.nextRef {
      assert SignalOk(s, pid, MonitorDownSignal(ref, from));
    }
  }

  /** s' gives the next reference a meaning and keeps all others. */
  ghost predicate TakesRef(s: State, s': State) {
    && s'.procs == s.procs && s'.nextRef == s.nextRef + 1
    && (s'.monitors == s.monitors ||
        (s.nextRef in s'.monitors && s'.monitors == s.monitors[s.nextRef := s'.monitors[s.nextRef]]
         && s'.monitors[s.nextRef].owner != s'.monitors[s.nextRef].target))
    && (s'.aliases == s.aliases ||
        (s.nextRef in s'.aliases && s'.aliases == s.aliases[s.nextRef := s'.aliases[s.nextRef]]
         && (s.nextRef in s'.monitors ==> s'.monitors[s.nextRef].owner == s'.aliases[s.nextRef].owner)))
  }

  lemma TakesRefKeeps(s: State, s': State)
    requires Inv(s) && TakesRef(s, s')
    ensures Inv(s')
  {
    forall pid | pid in s'.procs ensures ProcessOk(s', pid, s'.procs[pid]) {
      TakesRefProcess(s, s', pid);
    }
    forall p: Pid, w: (Pid, Ref) | p in s'.procs && w in Watch(s'.procs[p]) ensures WatcherAlive(s', p, w) {
      assert WatcherAlive(s, p, w);
    }
    hide Watch, ProcessOk, WatcherAlive, DownQueued;
  }

  lemma TakesRefProcess(s: State, s': State, pid: Pid)
    requires Inv(s) && TakesRef(s, s') && pid in s.procs
    ensures ProcessOk(s', pid, s.procs[pid])
  {
    var p := s.procs[pid];
    assert ProcessOk(s, pid, p);
    NextIsUnused(s, pid);
    forall sig | sig in Queue(p) ensures SignalOk(s', pid, sig) { assert SignalOk(s, pid, sig); }
    forall h | h in p.entries.halves ensures HalfOk(s', pid, h) { assert HalfOk(s, pid, h); }
    hide Queue, IsMonitoring, AliasActive, Downs, ToAliases, Sane;
  }

  /** Entries for a reference unused so far; possibly an immediate DOWN instead. */
  lemma ReceivedNew(s: State, p: Process, p': Process, ref: Ref)
    requires ReceivedOk(s, p) && Unused(p, ref) && ref < s.nextRef
    requires forall h :: h in p'.entries.halves ==> h in p.entries.halves || h.ref == ref
    requires p'.received == p.received || (p'.received == p.received + [Down(ref)] && !IsMonitoring(p', ref))
    ensures ReceivedOk(s, p')
  {
    forall r: Ref
      ensures p'.received != p.received ==> Downs(p'.received, r) == Downs(p.received, r) + (if r == ref then 1 else 0)
      ensures ToAliases(p'.received, r) == ToAliases(p.received, r)
      ensures r != ref && IsMonitoring(p', r) ==> IsMonitoring(p, r)
      ensures r != ref && AliasActive(p', r) ==> AliasActive(p, r)
    {
      ReceivedAppend(p.received, Down(ref), r);
    }
    hide IsMonitoring, AliasActive, Downs, ToAliases;
  }

  lemma AddAliasMembers(e: Entries, ref: Ref, alias: Option<AliasType>)
    requires Sane(e)
    ensures Sane(AddAlias(e, ref, alias))
    ensures forall x :: x in AddAlias(e, ref, alias).halves <==>
              x in e.halves || (alias.Some? && x == Alias(ref, alias.value))
  {
    if alias.Some? { AddSane(e, Alias(ref, alias.value)); }
  }

  /** New entries of its own for a new reference leave a process as watched as before. */
  lemma NewEntries(s: State, pid: Pid, p': Process, ref: Ref)
    requires Inv(s) && pid in s.procs && Unused(s.procs[pid], ref) && ref < s.nextRef
    requires EntriesOk(s, pid, p'.entries) && Queue(p') == Queue(s.procs[pid])
    requires forall h :: h in s.procs[pid].entries.halves ==> h in p'.entries.halves
    requires forall h :: h in p'.entries.halves ==> h in s.procs[pid].entries.halves || (h.ref == ref && !h.Monitored?)
    requires p'.received == s.procs[pid].received ||
             (p'.received == s.procs[pid].received + [Down(ref)] && !IsMonitoring(p', ref))
    ensures Inv(s.(procs := s.procs[pid := p']))
  {
    var p := s.procs[pid];
    assert ProcessOk(s, pid, p);
    ReceivedNew(s, p, p', ref);
    assert Watchers(p'.entries.halves) == Watchers(p.entries.halves);
    hide EntriesOk, HistoryOk, WatchersAlive, DownsFinal, ReceivedOk, IsMonitoring, Unused;
    OwnStep(s, pid, p');
  }

  /** The target learns of a new monitor whose owner already holds its half. */
  lemma PostMonitor(s: State, t: Pid, h: Half)
    requires Inv(s) && t in s.procs && h.Monitored? && SignalOk(s, t, MonitorSignal(h))
    requires WatcherAlive(s, t, (h.watcher, h.ref)) && h.watcher != t
    requires forall from: Pid :: !DownQueued(s.procs[h.watcher], h.ref, from)
    ensures Inv(s.(procs := Post(s.procs, t, MonitorSignal(h))))
  {
    var p, sig := s.procs[t], MonitorSignal(h);
    var p' := p.(inbox := p.inbox + [sig]);
    var s' := s.(procs := s.procs[t := p']);
    assert ProcessOk(s, t, p);
    hide HalfOk, EntriesOk, WatchersAlive, DownsFinal, HistoryOk;
    QueuePost(p, sig);
    ReceivedKeep(s, p, p');
    assert ProcessOk(s, t, p');
    assert forall ref: Ref, from: Pid :: DownQueued(p', ref, from) ==> DownQueued(p, ref, from);
    assert Watch(p') == Watch(p) + {(h.watcher, h.ref)};
    NewWatcher(s, t, p', (h.watcher, h.ref));
  }

  lemma NewWatcher(s: State, t: Pid, p': Process, w0: (Pid, Ref))
    requires Inv(s) && t in s.procs && ProcessOk(s, t, p') && p'.entries == s.procs[t].entries
    requires Watch(p') == Watch(s.procs[t]) + {w0} && WatcherAlive(s, t, w0)
    requires forall ref: Ref, from: Pid :: DownQueued(p', ref, from) ==> DownQueued(s.procs[t], ref, from)
    requires forall from: Pid :: !DownQueued(s.procs[w0.0], w0.1, from)
    ensures Inv(s.(procs := s.procs[t := p']))
  {
    var s' := s.(procs := s.procs[t := p']);
    hide Watch, ProcessOk, DownQueued, HistoryOk;
    forall q | q in s'.procs ensures ProcessOk(s', q, s'.procs[q]) { OkInSameRefs(s, s', q, s'.procs[q]); }
    forall x: Pid, w: (Pid, Ref) | x in s'.procs && w in Watch(s'.procs[x]) ensures WatcherAlive(s', x, w) {
      if x != t || w != w0 { assert w in Watch(s.procs[x]); assert WatcherAlive(s, x, w); }
    }
    forall q: Pid, ref: Ref, from: Pid | q in s'.procs && from in s'.procs && DownQueued(s'.procs[q], ref, from)
      ensures (q, ref) !in Watch(s'.procs[from])
    {
      assert DownQueued(s.procs[q], ref, from);
    }
    HistorySame(s, s');
  }

  lemma HistorySame(s: State, s': State)
    requires HistoryOk(s) && SameRefs(s, s')
    ensures HistoryOk(s')
  {}

  // ---- monitor, alias, spawn ----

  /** e' is e with entries of the process's own for ref. */
  ghost predicate Gains(s: State, pid: Pid, e: Entries, e': Entries, ref: Ref) {
    && Sane(e') && (forall h :: h in e.halves ==> h in e'.halves)
    && (forall h :: h in e'.halves && h !in e.halves ==> h.ref == ref && !h.Monitored? && HalfOk(s, pid, h))
  }

  lemma GainsOk(s: State, s1: State, pid: Pid, e': Entries)
    requires Inv(s) && TakesRef(s, s1) && pid in s.procs && Gains(s1, pid, s.procs[pid].entries, e', s.nextRef)
    requires ProcessOk(s1, pid, s1.procs[pid])
    ensures EntriesOk(s1, pid, e')
  {
    hide Inv, HalfOk, Sane, ReceivedOk, Queue, SignalOk;
  }

  lemma GainsKeeps(s: State, s1: State, pid: Pid, p': Process)
    requires Inv(s) && TakesRef(s, s1) && pid in s.procs && Gains(s1, pid, s.procs[pid].entries, p'.entries, s.nextRef)
    requires Queue(p') == Queue(s.procs[pid])
    requires p'.received == s.procs[pid].received ||
             (p'.received == s.procs[pid].received + [Down(s.nextRef)] && !IsMonitoring(p', s.nextRef))
    ensures Inv(s1.(procs := s1.procs[pid := p']))
  {
    hide WatchersAlive, DownsFinal, HistoryOk, ProcessOk, HalfOk, Sane, Queue, Unused, IsMonitoring;
    NextIsUnused(s, pid);
    TakesRefKeeps(s, s1);
    GainsOk(s, s1, pid, p'.entries);
    NewEntries(s1, pid, p', s.nextRef);
  }

  lemma MakeAliasKeeps(s: State, pid: Pid, kind: AliasType)
    requires Inv(s) && pid in s.procs
    ensures Inv(Next(s, MakeAlias(pid, kind)))
  {
    hide Inv, Sane;
    var p, ref := s.procs[pid], s.nextRef;
    var s1 := State(s.procs, ref + 1, s.monitors, NoteAlias(s, pid, Some(kind)));
    var p' := p.(entries := Add(p.entries, Alias(ref, kind)));
    ProcessSane(s, pid);
    NextIsUnused(s, pid);
    AddSane(p.entries, Alias(ref, kind));
    GainsKeeps(s, s1, pid, p');
  }

  lemma NoTargetKeeps(s: State, pid: Pid, kept: Option<AliasType>)
    requires Inv(s) && pid in s.procs
    ensures var p := s.procs[pid];
            Inv(State(s.procs[pid := p.(entries := AddAlias(p.entries, s.nextRef, kept),
              received := p.received + [Down(s.nextRef)])],
                      s.nextRef + 1, s.monitors, NoteAlias(s, pid, kept)))
  {
    hide Inv, Sane, AddAlias;
    var p, ref := s.procs[pid], s.nextRef;
    var s1 := State(s.procs, ref + 1, s.monitors, NoteAlias(s, pid, kept));
    var p' := p.(entries := AddAlias(p.entries, ref, kept), received := p.received + [Down(ref)]);
    ProcessSane(s, pid);
    NextIsUnused(s, pid);
    AddAliasMembers(p.entries, ref, kept);
    GainsKeeps(s, s1, pid, p');
  }

  /** The caller's entries with the new half and alias. */
  ghost function MonitorEntries(p: Process, target: Pid, ref: Ref, name: Option<nat>,
                                alias: Option<AliasType>): Entries {
    AddAlias(Add(p.entries, Monitoring(target, ref, name)), ref, alias)
  }

  ghost function MonitorRefs(s: State, pid: Pid, target: Pid, name: Option<nat>, alias: Option<AliasType>): State {
    State(s.procs, s.nextRef + 1, s.monitors[s.nextRef := Pair(pid, target, alias.Some?, name)],
          NoteAlias(s, pid, alias))
  }

  lemma MonitorGains(s: State, pid: Pid, target: Pid, name: Option<nat>, alias: Option<AliasType>)
    requires Inv(s) && pid in s.procs && target != pid
    ensures var p, s1 := s.procs[pid], MonitorRefs(s, pid, target, name, alias);
            var e := MonitorEntries(p, target, s.nextRef, name, alias);
            TakesRef(s, s1) && Gains(s1, pid, p.entries, e, s.nextRef)
            && Monitoring(target, s.nextRef, name) in e.halves
            && Queue(p.(entries := e)) == Queue(p)
            && forall from: Pid :: !DownQueued(p.(entries := e), s.nextRef, from)
  {
    hide Inv, Sane, AddAlias;
    var p, ref := s.procs[pid], s.nextRef;
    var half := Monitoring(target, ref, name);
    ProcessSane(s, pid);
    NextIsUnused(s, pid);
    AddSane(p.entries, half);
    AddAliasMembers(Add(p.entries, half), ref, alias);
    assert forall e, from: Pid :: DownQueued(p.(entries := e), ref, from) ==> DownQueued(p, ref, from);
  }

  lemma NewMonitorKeeps(s: State, pid: Pid, target: Pid, name: Option<nat>, alias: Option<AliasType>)
    requires Inv(s) && pid in s.procs && target in s.procs && target != pid
    ensures Inv(DoMonitor(s, pid, target, name, alias))
  {
    hide Inv, Gains, Sane, Queue, DownQueued, Add, AddAlias, TakesRef;
    var p, ref := s.procs[pid], s.nextRef;
    var h := Monitored(pid, ref, alias.Some?);
    var s1 := MonitorRefs(s, pid, target, name, alias);
    var p' := p.(entries := MonitorEntries(p, target, ref, name, alias));
    var s2 := s1.(procs := s1.procs[pid := p']);
    MonitorGains(s, pid, target, name, alias);
    GainsKeeps(s, s1, pid, p');
    PostMonitor(s2, target, h);
    PostCommutes(s.procs, pid, p', target, MonitorSignal(h));
    assert DoMonitor(s, pid, target, name, alias) == s2.(procs := Post(s2.procs, target, MonitorSignal(h)));
  }

  lemma SetMonitorKeeps(s: State, pid: Pid, target: Pid, name: Option<nat>, alias: Option<AliasType>)
    requires Inv(s) && pid in s.procs
    ensures Inv(DoMonitor(s, pid, target, name, alias))
  {
    hide Inv;
    if target == pid {
      TakesRefKeeps(s, s.(nextRef := s.nextRef + 1));
    } else if target !in s.procs {
      NoTargetKeeps(s, pid, if alias == Some(ExplicitUnalias) then alias else None);
    } else {
      NewMonitorKeeps(s, pid, target, name, alias);
    }
  }

  lemma SpawnKeeps(s: State, pid: Pid)
    requires Inv(s) && pid !in s.procs
    ensures Inv(Next(s, Spawn(pid)))
  {
    var p := Process(Entries([], 0), [], [], [], []);
    var s' := s.(procs := s.procs[pid := p]);
    assert Queue(p) == [] && Watch(p) == {};
    assert ProcessOk(s', pid, p);
    hide Watch, HistoryOk, Queue;
    forall q | q in s.procs ensures ProcessOk(s', q, s'.procs[q]) { OkInSameRefs(s, s', q, s.procs[q]); }
    hide ProcessOk;
    forall x: Pid, w: (Pid, Ref) | x in s'.procs && w in Watch(s'.procs[x]) ensures WatcherAlive(s', x, w) {
      assert WatcherAlive(s, x, w);
    }
    forall q: Pid, ref: Ref, from: Pid | q in s'.procs && from in s'.procs && DownQueued(s'.procs[q], ref, from)
      ensures (q, ref) !in Watch(s'.procs[from])
    {
      if q != pid && from != pid { assert DownQueued(s.procs[q], ref, from); }
    }
    HistorySame(s, s');
  }

  // ---- termination ----

  /** What a farewell signal to r stands for. */
  ghost predicate FarewellFor(pid: Pid, halves: seq<Half>, r: Pid, sig: Signal) {
    match sig
    case DemonitorSignal(ref) => exists h :: h in halves && h.Monitoring? && h.target == r && h.ref == ref
    case MonitorDownSignal(ref, from) =>
      from == pid && exists h :: h in halves && h.Monitored? && h.watcher == r && h.ref == ref
    case _ => false
  }

  lemma {:induction false} FarewellMembers(pid: Pid, halves: seq<Half>, r: Pid, sig: Signal)
    ensures sig in Farewell(pid, halves, r) <==> FarewellFor(pid, halves, r, sig)
  {
    if |halves| > 0 {
      FarewellMembers(pid, halves[1..], r, sig);
      assert halves == [halves[0]] + halves[1..];
    }
  }

  lemma {:induction false} DrainWatchAppend(w: set<(Pid, Ref)>, a: seq<Signal>, b: seq<Signal>)
    ensures DrainWatch(w, a + b) == DrainWatch(DrainWatch(w, a), b)
    decreases |a|
  {
    if |a| == 0 {
      assert a + b == b;
    } else {
      assert (a + b)[1..] == a[1..] + b;
      DrainWatchAppend(ApplyWatch(w, a[0]), a[1..], b);
    }
  }

  /** Signals that add no watcher leave none of the references they demonitor. */
  lemma {:induction false} DrainWatchShrinks(w: set<(Pid, Ref)>, q: seq<Signal>)
    requires forall sig :: sig in q ==> !sig.MonitorSignal?
    ensures DrainWatch(w, q) <= w
    ensures forall x :: x in DrainWatch(w, q) ==> DemonitorSignal(x.1) !in q
    decreases |q|
  {
    if |q| > 0 { DrainWatchShrinks(ApplyWatch(w, q[0]), q[1..]); }
  }

  /** r after pid has left the signals q with it. */
  lemma Told(p: Process, p': Process, q: seq<Signal>)
    requires p' == p.(inbox := p.inbox + q) && (forall sig :: sig in q ==> !sig.MonitorSignal?)
    ensures Queue(p') == Queue(p) + q
    ensures Watch(p') <= Watch(p)
    ensures forall x :: x in Watch(p') ==> DemonitorSignal(x.1) !in q
  {
    assert p.pending + p.batch + (p.inbox + q) == p.pending + p.batch + p.inbox + q;
    DrainWatchAppend(Watchers(p.entries.halves), Queue(p), q);
    DrainWatchShrinks(Watch(p), q);
  }

  ghost predicate Leaves(s: State, pid: Pid, halves: seq<Half>)
    requires pid in s.procs
  {
    && (forall h :: h in halves ==> HalfOk(s, pid, h))
    && (forall h :: h in s.procs[pid].entries.halves && h.Monitoring? ==> h in halves)
  }

  lemma DrainLeaves(s: State, pid: Pid)
    requires Inv(s) && Enabled(s, Terminate(pid))
    ensures Leaves(s, pid, Drain(s.procs[pid].entries, s.procs[pid].inbox).halves)
  {
    hide WatchersAlive, DownsFinal, Watch, ReceivedOk;
    var p := s.procs[pid];
    assert ProcessOk(s, pid, p);
    assert Queue(p) == p.inbox;
    DrainWatchers(s, pid, p.entries, p.inbox);
  }

  ghost function Bereaved(s: State, pid: Pid, halves: seq<Half>, r: Pid): Process
    requires r in s.procs
  {
    s.procs[r].(inbox := s.procs[r].inbox + Farewell(pid, halves, r))
  }

  /** A process that is told stays well-formed, and is watched by fewer. */
  lemma BereavedOk(s: State, pid: Pid, halves: seq<Half>, r: Pid)
    requires Inv(s) && pid in s.procs && r in s.procs && Leaves(s, pid, halves)
    ensures ProcessOk(s, r, Bereaved(s, pid, halves, r))
    ensures Watch(Bereaved(s, pid, halves, r)) <= Watch(s.procs[r])
    ensures forall x :: x in Watch(Bereaved(s, pid, halves, r)) ==> DemonitorSignal(x.1) !in Farewell(pid, halves, r)
    ensures forall ref: Ref, from: Pid :: DownQueued(Bereaved(s, pid, halves, r), ref, from) ==>
              DownQueued(s.procs[r], ref, from) || from == pid
  {
    hide Watch, ReceivedOk, Sane, WatchersAlive, DownsFinal, HistoryOk, Farewell;
    var p, p', q := s.procs[r], Bereaved(s, pid, halves, r), Farewell(pid, halves, r);
    assert ProcessOk(s, r, p);
    forall sig | sig in q
      ensures SignalOk(s, r, sig) && !sig.MonitorSignal? && (sig.MonitorDownSignal? ==> sig.from == pid)
    {
      FarewellMembers(pid, halves, r, sig);
    }
    Told(p, p', q);
    ReceivedKeep(s, p, p');
  }

  /** A watch of the dead process is told off. */
  lemma NoDeadWatcher(s: State, pid: Pid, halves: seq<Half>, r: Pid, w: (Pid, Ref))
    requires Inv(s) && pid in s.procs && r in s.procs && Leaves(s, pid, halves)
    requires w in Watch(Bereaved(s, pid, halves, r))
    ensures w.0 != pid && WatcherAlive(s, r, w)
  {
    hide Watch, ProcessOk, DownsFinal, HistoryOk, Farewell;
    BereavedOk(s, pid, halves, r);
    assert WatcherAlive(s, r, w);
    if w.0 == pid {
      assert Monitoring(r, w.1, s.monitors[w.1].name) in halves;
      FarewellMembers(pid, halves, r, DemonitorSignal(w.1));
    }
  }

  lemma TerminateKeeps(s: State, pid: Pid)
    requires Inv(s) && Enabled(s, Terminate(pid))
    ensures Inv(Next(s, Terminate(pid)))
  {
    hide Watch, ProcessOk, Leaves, HistoryOk, Farewell, Drain, DownQueued;
    var halves := Drain(s.procs[pid].entries, s.procs[pid].inbox).halves;
    DrainLeaves(s, pid);
    var s' := DoTerminate(s, pid);
    forall r | r in s'.procs ensures ProcessOk(s', r, s'.procs[r]) {
      BereavedOk(s, pid, halves, r);
      OkInSameRefs(s, s', r, s'.procs[r]);
    }
    forall r: Pid, w: (Pid, Ref) | r in s'.procs && w in Watch(s'.procs[r]) ensures WatcherAlive(s', r, w) {
      NoDeadWatcher(s, pid, halves, r, w);
    }
    forall q: Pid, ref: Ref, from: Pid | q in s'.procs && from in s'.procs && DownQueued(s'.procs[q], ref, from)
      ensures (q, ref) !in Watch(s'.procs[from])
    {
      BereavedOk(s, pid, halves, q);
      BereavedOk(s, pid, halves, from);
      assert DownQueued(s.procs[q], ref, from);
    }
    HistorySame(s, s');
  }

  // ---- whole runs ----

  /** Every step keeps the invariant. */
  lemma NextKeeps(s: State, step: Step)
    requires Inv(s) && Enabled(s, step)
    ensures Inv(Next(s, step))
  {
    hide Inv, DoMonitor, DoDemonitor, DoSplit, DoHandle, DoTerminate, FindAlias, Add;
    match step
    case Spawn(pid) => SpawnKeeps(s, pid);
    case SetMonitor(pid, target, name, alias) => SetMonitorKeeps(s, pid, target, name, alias);
    case CallDemonitor(pid, ref) => CallDemonitorKeeps(s, pid, ref);
    case MakeAlias(pid, kind) => MakeAliasKeeps(s, pid, kind);
    case CallUnalias(pid, ref) => CallUnaliasKeeps(s, pid, ref);
    case SendToAlias(pid, ref, payload) => PostStep(s, pid, AliasMessageSignal(ref, payload));
    case Detach(pid) => DetachKeeps(s, pid);
    case Split(pid) =>
      if s.procs[pid].batch[0].AliasMessageSignal? { AliasMessageKeeps(s, pid); } else { SetAsideKeeps(s, pid); }
    case Handle(pid) =>
      if s.procs[pid].pending[0].MonitorDownSignal? { HandleDownKeeps(s, pid); } else { HandleKeeps(s, pid); }
    case Terminate(pid) => TerminateKeeps(s, pid);
  }

  lemma {:induction false} RunKeeps(states: seq<State>, steps: seq<Step>, i: nat)
    requires Run(states, steps) && i < |states|
    ensures Inv(states[i])
  {
    hide Inv, Next, Enabled;
    if i == 0 {
      InitialOk();
    } else {
      RunKeeps(states, steps, i - 1);
      assert Enabled(states[i - 1], steps[i - 1]) && states[i] == Next(states[i - 1], steps[i - 1]);
      NextKeeps(states[i - 1], steps[i - 1]);
    }
  }

  lemma InitialOk()
    ensures Inv(Initial)
  {}
}
