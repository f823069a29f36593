/** The monitor protocol between local processes: every process has its entries and
    a first-in first-out mailbox of signals, and the processes take steps in any order. */
module Protocol {
  import opened Prelude
  import opened Monitors

  datatype Signal =
    | MonitorSignal(half: Half)
    | DemonitorSignal(ref: Ref)
    | MonitorDownSignal(ref: Ref, from: Pid)
    | AliasMessageSignal(ref: Ref, payload: nat)

  /** What a process has received: a DOWN of a monitor, or a message sent to an alias. */
  datatype Message = Down(ref: Ref) | ToAlias(ref: Ref, payload: nat)

  /** inbox holds signals as posted; a process detaches all of them as a batch, turns
      alias messages of the batch into messages, and then handles the other signals. */
  datatype Process = Process(
    entries: Entries, inbox: seq<Signal>, batch: seq<Signal>, pending: seq<Signal>, received: seq<Message>)

  /** Who set a monitor on whom, and how. */
  datatype Pair = Pair(owner: Pid, target: Pid, viaAlias: bool, name: Option<nat>)

  datatype AliasUse = AliasUse(owner: Pid, kind: AliasType)

  /** The process table and the next reference. monitors and aliases record what each
      reference was made for; no step reads them. */
  datatype State = State(
    procs: map<Pid, Process>, nextRef: Ref, monitors: map<Ref, Pair>, aliases: map<Ref, AliasUse>)

  datatype Step =
    | Spawn(pid: Pid)
    | SetMonitor(pid: Pid, target: Pid, name: Option<nat>, alias: Option<AliasType>)
    | CallDemonitor(pid: Pid, ref: Ref)
    | MakeAlias(pid: Pid, kind: AliasType)
    | CallUnalias(pid: Pid, ref: Ref)
    | SendToAlias(pid: Pid, ref: Ref, payload: nat)
    | Detach(pid: Pid)
    | Split(pid: Pid)
    | Handle(pid: Pid)
    | Terminate(pid: Pid)

  // ---- the steps ----

  function Post(procs: map<Pid, Process>, pid: Pid, sig: Signal): map<Pid, Process> {
    if pid in procs then procs[pid := procs[pid].(inbox := procs[pid].inbox + [sig])] else procs
  }

  function AddAlias(e: Entries, ref: Ref, alias: Option<AliasType>): Entries {
    if alias.Some? then Add(e, Alias(ref, alias.value)) else e
  }

  function NoteAlias(s: State, pid: Pid, alias: Option<AliasType>): map<Ref, AliasUse> {
    if alias.Some? then s.aliases[s.nextRef := AliasUse(pid, alias.value)] else s.aliases
  }

  /** erlang:monitor. Monitoring oneself installs nothing; a target that is not there
      gives an immediate DOWN and keeps only an explicit alias. Otherwise the target is
      told first and the caller's half and alias are added. */
  function DoMonitor(s: State, pid: Pid, target: Pid, name: Option<nat>, alias: Option<AliasType>): State
    requires pid in s.procs
  {
    var ref := s.nextRef;
    var p := s.procs[pid];
    if target == pid then
      s.(nextRef := ref + 1)
    else if target !in s.procs then
      var kept := if alias == Some(ExplicitUnalias) then alias else None;
      State(s.procs[pid := p.(entries := AddAlias(p.entries, ref, kept), received := p.received + [Down(ref)])],
            ref + 1, s.monitors, NoteAlias(s, pid, kept))
    else
      var e := AddAlias(Add(p.entries, Monitoring(target, ref, name)), ref, alias);
      State(Post(s.procs, target, MonitorSignal(Monitored(pid, ref, alias.Some?)))[pid := p.(entries := e)],
            ref + 1, s.monitors[ref := Pair(pid, target, alias.Some?, name)],
            NoteAlias(s, pid, alias))
  }

  /** erlang:demonitor: only the process that set the monitor removes it. */
  function DoDemonitor(s: State, pid: Pid, ref: Ref): State
    requires pid in s.procs
  {
    var p := s.procs[pid];
    match MonitorHalf(p.entries, ref)
    case Some(Monitoring(target, _, _)) =>
      s.(procs := Post(s.procs[pid := p.(entries := Demonitor(p.entries, ref))], target, DemonitorSignal(ref)))
    case _ => s
  }

  /** context_process_alias_message_signal on the head of the batch. */
  function DoAliasMessage(s: State, pid: Pid, ref: Ref, payload: nat): State
    requires pid in s.procs && |s.procs[pid].batch| > 0
  {
    var p := s.procs[pid].(batch := s.procs[pid].batch[1..]);
    match FindAlias(p.entries, ref)
    case Some(Alias(_, kind)) =>
      var p' := p.(received := p.received + [ToAlias(ref, payload)]);
      if kind == ReplyDemonitor then
        var procs := s.procs[pid := p'.(entries := Demonitor(p.entries, ref))];
        match MonitorHalf(p.entries, ref)
        case Some(Monitoring(target, _, _)) => s.(procs := Post(procs, target, DemonitorSignal(ref)))
        case _ => s.(procs := procs)
      else s.(procs := s.procs[pid := p'])
    case _ => s.(procs := s.procs[pid := p])
  }

  /** The first pass over the batch: alias messages are delivered or dropped, a DOWN
      deactivates its alias, other signals wait. */
  function DoSplit(s: State, pid: Pid): State
    requires pid in s.procs && |s.procs[pid].batch| > 0
  {
    var p := s.procs[pid];
    var sig := p.batch[0];
    if sig.AliasMessageSignal? then DoAliasMessage(s, pid, sig.ref, sig.payload)
    else
      var e := if sig.MonitorDownSignal? then DropAlias(p.entries, sig.ref) else p.entries;
      s.(procs := s.procs[pid := p.(entries := e, batch := p.batch[1..], pending := p.pending + [sig])])
  }

  /** A MonitorSignal or DemonitorSignal applied to the entries. */
  function Apply(e: Entries, sig: Signal): Entries {
    match sig
    case MonitorSignal(h) => Add(e, h)
    case DemonitorSignal(ref) => Demonitor(e, ref)
    case _ => e
  }

  function DoHandle(s: State, pid: Pid): State
    requires pid in s.procs && |s.procs[pid].pending| > 0
  {
    var p := s.procs[pid].(pending := s.procs[pid].pending[1..]);
    match s.procs[pid].pending[0]
    case MonitorDownSignal(ref, from) =>
      (match AfterDown(p.entries, ref, from)
       case Some(e) => s.(procs := s.procs[pid := p.(entries := e, received := p.received + [Down(ref)])])
       case None => s.(procs := s.procs[pid := p]))
    case sig => s.(procs := s.procs[pid := p.(entries := Apply(p.entries, sig))])
  }

  /** The entries of a dying process after it drained its mailbox. */
  function Drain(e: Entries, signals: seq<Signal>): Entries
    decreases |signals|
  {
    if |signals| == 0 then e else Drain(Apply(e, signals[0]), signals[1..])
  }

  /** What a dying process posts to r: demonitor for its own monitors, DOWN for those set on it. */
  function Farewell(pid: Pid, halves: seq<Half>, r: Pid): seq<Signal> {
    if |halves| == 0 then []
    else
      (match halves[0]
       case Monitoring(target, ref, _) => if target == r then [DemonitorSignal(ref)] else []
       case Monitored(watcher, ref, _) => if watcher == r then [MonitorDownSignal(ref, pid)] else []
       case Alias(_, _) => [])
      + Farewell(pid, halves[1..], r)
  }

  /** context_destroy, under the process table lock. */
  function DoTerminate(s: State, pid: Pid): State
    requires pid in s.procs
  {
    var halves := Drain(s.procs[pid].entries, s.procs[pid].inbox).halves;
    s.(procs := map r | r in s.procs && r != pid ::
        s.procs[r].(inbox := s.procs[r].inbox + Farewell(pid, halves, r)))
  }

  predicate Enabled(s: State, step: Step) {
    match step
    case Spawn(pid) => pid !in s.procs
    case SendToAlias(_, _, _) => true
    case Detach(pid) => pid in s.procs && s.procs[pid].batch == [] && s.procs[pid].pending == []
    case Split(pid) => pid in s.procs && |s.procs[pid].batch| > 0
    case Handle(pid) => pid in s.procs && s.procs[pid].batch == [] && |s.procs[pid].pending| > 0
    case Terminate(pid) => pid in s.procs && s.procs[pid].batch == [] && s.procs[pid].pending == []
    case _ => step.pid in s.procs
  }

  function Next(s: State, step: Step): State
    requires Enabled(s, step)
  {
    match step
    case Spawn(pid) => s.(procs := s.procs[pid := Process(Entries([], 0), [], [], [], [])])
    case SetMonitor(pid, target, name, alias) => DoMonitor(s, pid, target, name, alias)
    case CallDemonitor(pid, ref) => DoDemonitor(s, pid, ref)
    case MakeAlias(pid, kind) =>
      var p := s.procs[pid];
      State(s.procs[pid := p.(entries := Add(p.entries, Alias(s.nextRef, kind)))], s.nextRef + 1,
            s.monitors, NoteAlias(s, pid, Some(kind)))
    case CallUnalias(pid, ref) =>
      var p := s.procs[pid];
      if FindAlias(p.entries, ref).Some? then s.(procs := s.procs[pid := p.(entries := Unalias(p.entries, ref))]) else s
    case SendToAlias(pid, ref, payload) => s.(procs := Post(s.procs, pid, AliasMessageSignal(ref, payload)))
    case Detach(pid) => s.(procs := s.procs[pid := s.procs[pid].(inbox := [], batch := s.procs[pid].inbox)])
    case Split(pid) => DoSplit(s, pid)
    case Handle(pid) => DoHandle(s, pid)
    case Terminate(pid) => DoTerminate(s, pid)
  }

  const Initial: State := State(map[], 0, map[], map[])

  /** The states a run goes through. */
  ghost predicate Run(states: seq<State>, steps: seq<Step>) {
    && |states| == |steps| + 1 && states[0] == Initial
    && forall i :: 0 <= i < |steps| ==> Enabled(states[i], steps[i]) && states[i + 1] == Next(states[i], steps[i])
  }

  // ---- the invariant ----

  /** All signals a process has yet to handle, oldest first. */
  function Queue(p: Process): seq<Signal> { p.pending + p.batch + p.inbox }

  /** Who monitors a process with these halves, by watcher and reference. */
  ghost function Watchers(halves: seq<Half>): set<(Pid, Ref)> {
    set h | h in halves && h.Monitored? :: (h.watcher, h.ref)
  }

  ghost function ApplyWatch(w: set<(Pid, Ref)>, sig: Signal): set<(Pid, Ref)> {
    match sig
    case MonitorSignal(h) => if h.Monitored? then w + {(h.watcher, h.ref)} else w
    case DemonitorSignal(ref) => set x | x in w && x.1 != ref
    case _ => w
  }

  ghost function DrainWatch(w: set<(Pid, Ref)>, signals: seq<Signal>): set<(Pid, Ref)>
    decreases |signals|
  {
    if |signals| == 0 then w else DrainWatch(ApplyWatch(w, signals[0]), signals[1..])
  }

  /** Who will still monitor p once it has handled everything queued. */
  ghost function Watch(p: Process): set<(Pid, Ref)> { DrainWatch(Watchers(p.entries.halves), Queue(p)) }

  /** A half held by pid is the one its reference was made for. */
  ghost predicate HalfOk(s: State, pid: Pid, h: Half) {
    match h
    case Monitoring(target, ref, name) =>
      ref in s.monitors && s.monitors[ref] == Pair(pid, target, s.monitors[ref].viaAlias, name)
    case Monitored(watcher, ref, viaAlias) =>
      ref in s.monitors && s.monitors[ref] == Pair(watcher, pid, viaAlias, s.monitors[ref].name)
    case Alias(ref, kind) => ref in s.aliases && s.aliases[ref] == AliasUse(pid, kind)
  }

  ghost predicate SignalOk(s: State, pid: Pid, sig: Signal) {
    match sig
    case MonitorSignal(h) => h.Monitored? && HalfOk(s, pid, h)
    case DemonitorSignal(ref) => ref in s.monitors && s.monitors[ref].target == pid
    case MonitorDownSignal(ref, from) =>
      ref in s.monitors && s.monitors[ref].owner == pid && s.monitors[ref].target == from
    case AliasMessageSignal(_, _) => true
  }

  function Downs(msgs: seq<Message>, ref: Ref): nat {
    if |msgs| == 0 then 0 else (if msgs[0] == Down(ref) then 1 else 0) + Downs(msgs[1..], ref)
  }

  function ToAliases(msgs: seq<Message>, ref: Ref): nat {
    if |msgs| == 0 then 0
    else (if msgs[0].ToAlias? && msgs[0].ref == ref then 1 else 0) + ToAliases(msgs[1..], ref)
  }

  ghost predicate IsMonitoring(p: Process, ref: Ref) {
    exists h :: h in p.entries.halves && h.Monitoring? && h.ref == ref
  }

  ghost predicate AliasActive(p: Process, ref: Ref) {
    exists h :: h in p.entries.halves && h.Alias? && h.ref == ref
  }

  /** At most one DOWN per monitor and none while it stands; at most one message
      through a reply alias and none while it stands. */
  ghost predicate ReceivedOk(s: State, p: Process) {
    && (forall ref: Ref {:trigger Downs(p.received, ref)} ::
         Downs(p.received, ref) <= 1 && (Downs(p.received, ref) > 0 ==> ref < s.nextRef && !IsMonitoring(p, ref)))
    && (forall ref: Ref {:trigger ToAliases(p.received, ref)} :: ToAliases(p.received, ref) > 0 ==>
         ref in s.aliases &&
         (s.aliases[ref].kind == ReplyDemonitor ==> ToAliases(p.received, ref) == 1 && !AliasActive(p, ref)))
  }

  ghost predicate EntriesOk(s: State, pid: Pid, e: Entries) {
    Sane(e) && forall h :: h in e.halves ==> HalfOk(s, pid, h)
  }

  ghost predicate ProcessOk(s: State, pid: Pid, p: Process) {
    && EntriesOk(s, pid, p.entries)
    && (forall sig :: sig in Queue(p) ==> SignalOk(s, pid, sig))
    && ReceivedOk(s, p)
  }

  ghost predicate HistoryOk(s: State) {
    && (forall ref: Ref :: ref in s.monitors ==> ref < s.nextRef && s.monitors[ref].owner != s.monitors[ref].target)
    && (forall ref: Ref :: ref in s.aliases ==> ref < s.nextRef)
    && (forall ref: Ref :: ref in s.monitors && ref in s.aliases ==> s.monitors[ref].owner == s.aliases[ref].owner)
  }

  /** The watcher is alive and still holds its half. */
  ghost predicate WatcherAlive(s: State, p: Pid, w: (Pid, Ref)) {
    && w.0 in s.procs && w.1 in s.monitors
    && Monitoring(p, w.1, s.monitors[w.1].name) in s.procs[w.0].entries.halves
  }

  ghost predicate WatchersAlive(s: State) {
    forall p: Pid, w: (Pid, Ref) :: p in s.procs && w in Watch(s.procs[p]) ==> WatcherAlive(s, p, w)
  }

  ghost predicate DownQueued(p: Process, ref: Ref, from: Pid) { MonitorDownSignal(ref, from) in Queue(p) }

  /** A DOWN in the queue means nobody will fire that monitor again. */
  ghost predicate DownsFinal(s: State) {
    forall q: Pid, ref: Ref, from: Pid :: q in s.procs && from in s.procs && DownQueued(s.procs[q], ref, from) ==>
      (q, ref) !in Watch(s.procs[from])
  }

  ghost predicate Inv(s: State) {
    && HistoryOk(s) && WatchersAlive(s) && DownsFinal(s)
    && (forall pid: Pid :: pid in s.procs ==> ProcessOk(s, pid, s.procs[pid]))
  }

  /** The assertion a terminating process makes: each monitored half left after the
      drain names a process in the table. */
  ghost predicate TargetsFound(s: State, pid: Pid)
    requires pid in s.procs
  {
    forall h :: h in Drain(s.procs[pid].entries, s.procs[pid].inbox).halves && h.Monitored? ==>
      h.watcher in s.procs && h.watcher != pid
  }
}
