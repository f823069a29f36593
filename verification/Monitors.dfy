/** The monitor and alias entries a process keeps in one list, and the operations
    that walk and unlink it. */
module Monitors {
  import opened Prelude

  type Pid = nat
  type Ref = nat

  datatype AliasType = ExplicitUnalias | DemonitorUnalias | ReplyDemonitor

  /** One entry of a process's list: its own half of a monitor it set, the half of a
      monitor set on it, or an alias. A monitor set through a registered name keeps it. */
  datatype Half =
    | Monitoring(target: Pid, ref: Ref, name: Option<nat>)
    | Monitored(watcher: Pid, ref: Ref, viaAlias: bool)
    | Alias(ref: Ref, kind: AliasType)

  /** A process's list and its 8-bit count of active aliases. */
  datatype Entries = Entries(halves: seq<Half>, count: nat)

  /** ACTIVE_ALIAS_COUNT_SATURATED */
  const SATURATED: nat := 255

  /** What a walk looks for: the alias of a reference, either half of its monitor, or
      the monitoring half for a given target. */
  datatype Key = AliasKey(ref: Ref) | MonitorKey(ref: Ref) | MonitoringKey(ref: Ref, target: Pid)

  predicate Matches(h: Half, k: Key) {
    h.ref == k.ref &&
    match k
    case AliasKey(_) => h.Alias?
    case MonitorKey(_) => !h.Alias?
    case MonitoringKey(_, target) => h.Monitoring? && h.target == target
  }

  /** First matching position, or the length. */
  function FindIndex(s: seq<Half>, k: Key): (i: nat)
    ensures i <= |s| && (i < |s| ==> Matches(s[i], k)) && (forall j :: 0 <= j < i ==> !Matches(s[j], k))
  {
    if |s| == 0 then 0 else if Matches(s[0], k) then 0 else 1 + FindIndex(s[1..], k)
  }

  function Without(s: seq<Half>, i: nat): seq<Half> {
    if i < |s| then s[..i] + s[i + 1..] else s
  }

  /** context_add_monitor: an equal entry is not added twice. */
  function Add(e: Entries, h: Half): Entries {
    if h in e.halves then e
    else Entries(e.halves + [h], if h.Alias? && e.count < SATURATED then e.count + 1 else e.count)
  }

  /** The alias with this reference, by walking the whole list. */
  function WalkAlias(e: Entries, ref: Ref): Option<Half> {
    var i := FindIndex(e.halves, AliasKey(ref));
    if i < |e.halves| then Some(e.halves[i]) else None
  }

  /** context_find_alias: a count of zero skips the walk. */
  function FindAlias(e: Entries, ref: Ref): Option<Half> {
    if e.count == 0 then None else WalkAlias(e, ref)
  }

  /** context_unalias of the alias with this reference. */
  function Unalias(e: Entries, ref: Ref): Entries {
    var halves := Without(e.halves, FindIndex(e.halves, AliasKey(ref)));
    Entries(halves,
            if e.count != SATURATED then (if e.count > 0 then e.count - 1 else 0)
            else if halves == [] then 0
            else SATURATED)
  }

  /** The alias goes with its monitor unless it asked for an explicit unalias. */
  function DropAlias(e: Entries, ref: Ref): Entries {
    match FindAlias(e, ref)
    case Some(Alias(_, kind)) => if kind == ExplicitUnalias then e else Unalias(e, ref)
    case _ => e
  }

  function RemoveMonitor(e: Entries, ref: Ref): Entries {
    e.(halves := Without(e.halves, FindIndex(e.halves, MonitorKey(ref))))
  }

  /** context_demonitor */
  function Demonitor(e: Entries, ref: Ref): Entries {
    RemoveMonitor(DropAlias(e, ref), ref)
  }

  /** context_get_monitor_pid: the monitor half with this reference. */
  function MonitorHalf(e: Entries, ref: Ref): Option<Half> {
    var i := FindIndex(e.halves, MonitorKey(ref));
    if i < |e.halves| then Some(e.halves[i]) else None
  }

  /** The entries after a DOWN for ref from this process, if the monitor is still there. */
  function AfterDown(e: Entries, ref: Ref, from: Pid): Option<Entries> {
    var i := FindIndex(e.halves, MonitoringKey(ref, from));
    if i < |e.halves| then Some(DropAlias(e.(halves := Without(e.halves, i)), ref)) else None
  }

  // ---- what the operations keep ----

  ghost predicate NoDuplicates(s: seq<Half>) { forall i, j :: 0 <= i < j < |s| ==> s[i] != s[j] }

  function Aliases(s: seq<Half>): nat {
    if |s| == 0 then 0 else (if s[0].Alias? then 1 else 0) + Aliases(s[1..])
  }

  /** Below saturation the count is exact; it is never zero while an alias is active. */
  ghost predicate Counted(e: Entries) {
    e.count <= SATURATED && (e.count < SATURATED ==> e.count == Aliases(e.halves))
  }

  ghost predicate Sane(e: Entries) { NoDuplicates(e.halves) && Counted(e) }

  /** The count fits its byte, and below 255 it is the number of aliases. */
  lemma CountFitsByte(e: Entries)
    requires Sane(e)
    ensures e.count <= 255 && (e.count != 255 ==> e.count == Aliases(e.halves))
    ensures Aliases(e.halves) > 255 ==> e.count == 255
  {}

  lemma {:induction false} AliasesAppend(s: seq<Half>, t: seq<Half>)
    ensures Aliases(s + t) == Aliases(s) + Aliases(t)
  {
    if |s| == 0 { assert s + t == t; } else {
      assert (s + t)[1..] == s[1..] + t;
      AliasesAppend(s[1..], t);
    }
  }

  lemma {:induction false} AliasesWithout(s: seq<Half>, i: nat)
    requires i < |s|
    ensures Aliases(Without(s, i)) == Aliases(s) - (if s[i].Alias? then 1 else 0)
  {
    if i == 0 {
      assert Without(s, i) == s[1..];
    } else {
      var t := Without(s, i);
      assert t[0] == s[0] && t[1..] == Without(s[1..], i - 1);
      assert Aliases(t) == (if t[0].Alias? then 1 else 0) + Aliases(t[1..]);
      assert Aliases(s) == (if s[0].Alias? then 1 else 0) + Aliases(s[1..]);
      hide Aliases;
      AliasesWithout(s[1..], i - 1);
    }
  }

  lemma {:induction false} AliasesPositive(s: seq<Half>, i: nat)
    requires i < |s| && s[i].Alias?
    ensures Aliases(s) > 0
  {
    AliasesWithout(s, i);
  }

  lemma AddSane(e: Entries, h: Half)
    requires Sane(e)
    ensures Sane(Add(e, h)) && h in Add(e, h).halves
    ensures forall x :: x in Add(e, h).halves <==> x in e.halves || x == h
  {
    AliasesAppend(e.halves, [h]);
    assert Aliases([h]) == if h.Alias? then 1 else 0;
  }

  /** Taking one entry out of a list without duplicates. */
  lemma WithoutMember(s: seq<Half>, i: nat)
    requires i < |s| && NoDuplicates(s)
    ensures NoDuplicates(Without(s, i))
    ensures forall x :: x in Without(s, i) <==> x in s && x != s[i]
  {
    var t := Without(s, i);
    forall x | x in s && x != s[i] ensures x in t {
      var k :| 0 <= k < |s| && s[k] == x;
      if k < i { assert t[k] == x; } else { assert t[k - 1] == x; }
    }
    forall x | x in t ensures x in s && x != s[i] {
      var k :| 0 <= k < |t| && t[k] == x;
      if k < i { assert s[k] == x; } else { assert s[k + 1] == x; }
    }
  }

  /** The shortcut on a zero count never hides an alias. */
  lemma ShortcutAgrees(e: Entries, ref: Ref)
    requires Counted(e)
    ensures FindAlias(e, ref) == WalkAlias(e, ref)
  {
    var i := FindIndex(e.halves, AliasKey(ref));
    if e.count == 0 && i < |e.halves| { AliasesPositive(e.halves, i); }
  }

  lemma UnaliasSane(e: Entries, ref: Ref)
    requires Sane(e) && WalkAlias(e, ref).Some?
    ensures e.count > 0 && Sane(Unalias(e, ref))
    ensures forall x :: x in Unalias(e, ref).halves <==> x in e.halves && x != WalkAlias(e, ref).value
  {
    var i := FindIndex(e.halves, AliasKey(ref));
    AliasesWithout(e.halves, i);
    AliasesPositive(e.halves, i);
    WithoutMember(e.halves, i);
    assert Aliases([]) == 0;
  }

  // ---- the same operations on the list in place ----

  /** A process's list, unlinked in place. */
  class Context {
    var halves: seq<Half>
    var count: nat

    ghost function View(): Entries
      reads this
    {
      Entries(halves, count)
    }

    constructor ()
      ensures View() == Entries([], 0) && Sane(View())
    {
      halves := [];
      count := 0;
    }

    method Find(k: Key) returns (i: nat)
      ensures i == FindIndex(halves, k)
    {
      i := 0;
      assert halves[0..] == halves;
      while i < |halves| && !Matches(halves[i], k)
        invariant i <= |halves| && FindIndex(halves, k) == i + FindIndex(halves[i..], k)
      {
        assert halves[i..][1..] == halves[i + 1..];
        i := i + 1;
      }
    }

    method AddMonitor(h: Half) returns (added: bool)
      requires Sane(View())
      modifies this
      ensures View() == Add(old(View()), h) && Sane(View())
      ensures added <==> h !in old(halves)
    {
      AddSane(View(), h);
      for i := 0 to |halves|
        invariant halves == old(halves) && count == old(count)
        invariant forall k :: 0 <= k < i ==> halves[k] != h
      {
        if halves[i] == h {
          return false;
        }
      }
      halves := halves + [h];
      if h.Alias? && count < SATURATED {
        count := count + 1;
      }
      added := true;
    }

    method UnaliasAt(i: nat)
      requires Sane(View()) && i < |halves| && halves[i].Alias? && i == FindIndex(halves, AliasKey(halves[i].ref))
      modifies this
      ensures View() == Unalias(old(View()), old(halves[i].ref)) && Sane(View())
    {
      UnaliasSane(View(), halves[i].ref);
      halves := halves[..i] + halves[i + 1..];
      if count != SATURATED {
        count := count - 1;
      } else if halves == [] {
        count := 0;
      }
    }

    /** Walks for the alias, unless the count says there is none. */
    method DropAliasOf(ref: Ref)
      requires Sane(View())
      modifies this
      ensures View() == DropAlias(old(View()), ref) && Sane(View())
    {
      if count == 0 {
        return;
      }
      var i := Find(AliasKey(ref));
      if i < |halves| && halves[i].kind != ExplicitUnalias {
        UnaliasAt(i);
      }
    }

    method DemonitorRef(ref: Ref)
      requires Sane(View())
      modifies this
      ensures View() == Demonitor(old(View()), ref) && Sane(View())
    {
      DropAliasOf(ref);
      var i := Find(MonitorKey(ref));
      if i < |halves| {
        AliasesWithout(halves, i);
        WithoutMember(halves, i);
        halves := halves[..i] + halves[i + 1..];
      }
    }

    /** context_process_monitor_down_signal; the result says whether a DOWN message is
        delivered. */
    method MonitorDown(ref: Ref, from: Pid) returns (delivered: bool)
      requires Sane(View())
      modifies this
      ensures match AfterDown(old(View()), ref, from)
              case Some(e) => delivered && View() == e
              case None => !delivered && View() == old(View())
      ensures Sane(View())
    {
      var i := Find(MonitoringKey(ref, from));
      if i == |halves| {
        return false;
      }
      AliasesWithout(halves, i);
      WithoutMember(halves, i);
      halves := halves[..i] + halves[i + 1..];
      DropAliasOf(ref);
      delivered := true;
    }
  }
}
