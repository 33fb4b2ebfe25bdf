/** The single-core scheduler: a ready list and a bit for every priority, and the switch to the most urgent thread. */
module Scheduler {
  import opened Words
  import opened Sequences
  import opened Rings
  import opened CtzMath
  import opened Ffs

  type Thread = nat

  /** RT_THREAD_PRIORITY_MAX */
  const PRIORITIES := 32

  datatype Stat = Init | Ready | Suspended | Running

  type Table = seq<seq<Thread>>

  /** Bit p of the group is set exactly when ready list p has a thread. */
  ghost predicate GroupShows(group: nat, table: Table) {
    |table| == PRIORITIES && group < WORD_LIMIT && forall p :: 0 <= p < PRIORITIES ==> (Bit(group, p) <==> table[p] != [])
  }

  /** Every thread in a list has the list's priority, is marked ready, and is there once. */
  ghost predicate Lists(table: Table, stat: map<Thread, Stat>, priority: Thread -> nat) {
    && (forall t :: priority(t) < PRIORITIES)
    && |table| == PRIORITIES
    && (forall p, t :: 0 <= p < PRIORITIES && t in table[p] ==> priority(t) == p && t in stat && stat[t] == Ready)
    && (forall p :: 0 <= p < PRIORITIES ==> Distinct(table[p]))
  }

  /** What holds of one thread. */
  lemma ListsOf(table: Table, stat: map<Thread, Stat>, priority: Thread -> nat, t: Thread)
    requires Lists(table, stat, priority)
    ensures |table| == PRIORITIES && priority(t) < PRIORITIES && Distinct(table[priority(t)])
    ensures t !in table[priority(t)] ==> forall q :: 0 <= q < PRIORITIES ==> t !in table[q]
    ensures t in table[priority(t)] ==> t in stat && stat[t] == Ready
    ensures forall q :: 0 <= q < PRIORITIES ==> Distinct(table[q])
    ensures forall q :: 0 <= q < PRIORITIES && table[q] != [] ==>
              table[q][0] in table[q] && priority(table[q][0]) == q && table[q][0] in stat && stat[table[q][0]] == Ready
  {
  }

  lemma ListsMarked(table: Table, stat: map<Thread, Stat>, priority: Thread -> nat, t: Thread, s: Stat)
    requires Lists(table, stat, priority) && t !in table[priority(t)]
    ensures Lists(table, stat[t := s], priority)
  {
  }

  lemma ListsAppended(table: Table, stat: map<Thread, Stat>, priority: Thread -> nat, t: Thread)
    requires Lists(table, stat, priority) && t !in table[priority(t)]
    ensures Lists(table[priority(t) := table[priority(t)] + [t]], stat[t := Ready], priority)
  {
    AppendDistinct(table[priority(t)], t);
  }

  lemma ListsOmitted(table: Table, stat: map<Thread, Stat>, priority: Thread -> nat, t: Thread)
    requires Lists(table, stat, priority)
    ensures var table' := table[priority(t) := Omitted(table[priority(t)], t)];
            Lists(table', stat, priority) && t !in table'[priority(t)]
  {
    hide Omitted;
    OmittedMembers(table[priority(t)], t);
  }

  /** A thread is marked ready only if it is on its list, and running only if it is the current one. */
  ghost predicate Marked(table: Table, stat: map<Thread, Stat>, current: Thread, priority: Thread -> nat) {
    forall t :: t in stat ==>
      (stat[t] == Ready ==> priority(t) < |table| && t in table[priority(t)]) && (stat[t] == Running ==> t == current)
  }

  // ---------------------------------------------------------------- the scheduler as a value

  datatype State = State(table: Table, current: Thread, stat: map<Thread, Stat>, lockNest: int)

  ghost predicate Sized(s: State, priority: Thread -> nat) {
    |s.table| == PRIORITIES && forall t :: priority(t) < PRIORITIES
  }

  /** The most urgent list with a thread, from list p on. */
  function TopFrom(table: Table, p: nat): (r: nat)
    requires p <= |table|
    ensures p <= r <= |table| && (r < |table| ==> table[r] != []) && forall q :: p <= q < r ==> table[q] == []
    decreases |table| - p
  {
    if p == |table| || table[p] != [] then p else TopFrom(table, p + 1)
  }

  lemma TopIs(table: Table, p: nat)
    requires |table| == PRIORITIES && (IsTop(table, p) || (p == PRIORITIES && forall q :: 0 <= q < p ==> table[q] == []))
    ensures TopFrom(table, 0) == p
  {
  }

  /** A call of rt_schedule. */
  ghost function Rescheduled(s: State, priority: Thread -> nat): (r: State)
    requires Sized(s, priority)
    ensures Sized(r, priority)
  {
    var p := TopFrom(s.table, 0);
    var running := s.current in s.stat && s.stat[s.current] == Running;
    if s.lockNest != 0 || p == PRIORITIES || (running && priority(s.current) < p) then s
    else
      State(Switched(s.table, priority, s.current, running, p), s.table[p][0],
            (if running then s.stat[s.current := Ready] else s.stat)[s.table[p][0] := Running], 0)
  }

  ghost function Resumed(s: State, t: Thread, priority: Thread -> nat): (r: State)
    requires Sized(s, priority)
    ensures Sized(r, priority)
  {
    if t == s.current then s.(stat := s.stat[t := Running])
    else s.(stat := s.stat[t := Ready], table := s.table[priority(t) := s.table[priority(t)] + [t]])
  }

  /** What an event makes of the scheduler. */
  ghost function Next(s: State, e: Event, priority: Thread -> nat): (r: State)
    requires Sized(s, priority)
    ensures Sized(r, priority)
  {
    match e
    case Starts(t) =>
      if t !in s.stat || s.stat[t] == Init
      then Rescheduled(Resumed(s.(stat := s.stat[t := Suspended]), t, priority), priority)
      else s
    case Suspends(t) =>
      if t in s.stat && (s.stat[t] == Ready || s.stat[t] == Running)
      then s.(stat := s.stat[t := Suspended], table := s.table[priority(t) := Omitted(s.table[priority(t)], t)])
      else s
    case Resumes(t) => if t in s.stat && s.stat[t] == Suspended then Resumed(s, t, priority) else s
    case Schedules => Rescheduled(s, priority)
    case EntersCritical => s.(lockNest := s.lockNest + 1)
    case ExitsCritical =>
      if s.lockNest > 1 then s.(lockNest := s.lockNest - 1) else Rescheduled(s.(lockNest := 0), priority)
  }

  ghost function After(s: State, events: seq<Event>, priority: Thread -> nat): (r: State)
    requires Sized(s, priority)
    ensures Sized(r, priority)
  {
    if events == [] then s else Next(After(s, Front(events), priority), Last(events), priority)
  }

  lemma AfterOne(s: State, events: seq<Event>, e: Event, priority: Thread -> nat)
    requires Sized(s, priority)
    ensures After(s, events + [e], priority) == Next(After(s, events, priority), e, priority)
  {
    Snoc(events, e);
  }

  class Cpu {
    /** The priority of a thread; its number_mask is 1 shifted by it. */
    const priority: Thread -> nat
    var table: Table
    var group: nat
    var current: Thread
    var stat: map<Thread, Stat>
    var lockNest: int

    predicate IsRunning(t: Thread)
      reads this
    {
      t in stat && stat[t] == Running
    }

    function Now(): State
      reads `table, `current, `stat, `lockNest
    {
      State(table, current, stat, lockNest)
    }

    ghost predicate InTable(t: Thread)
      reads this
      requires |table| == PRIORITIES && priority(t) < PRIORITIES
    {
      t in table[priority(t)]
    }

    /** The bits show the lists, the marks show who is listed and who runs, and the current thread is on no list. */
    ghost predicate Valid()
      reads this
    {
      GroupShows(group, table) && Lists(table, stat, priority) && Marked(table, stat, current, priority) && !InTable(current)
    }

    /** rt_system_scheduler_init, with the thread that is running first. */
    constructor (priority: Thread -> nat, first: Thread)
      requires forall t :: priority(t) < PRIORITIES
      ensures Valid() && current == first && this.priority == priority && group == 0 && lockNest == 0
      ensures stat == map[first := Running] && forall p :: 0 <= p < PRIORITIES ==> table[p] == []
    {
      this.priority := priority;
      table := seq(PRIORITIES, _ => []);
      group, current, stat, lockNest := 0, first, map[first := Running], 0;
      new;
      forall p | 0 <= p < PRIORITIES
        ensures !Bit(group, p)
      {
        NoBits(p);
      }
    }

    /** rt_schedule_insert_thread */
    method InsertThread(t: Thread)
      requires GroupShows(group, table) && Lists(table, stat, priority) && !InTable(t)
      modifies `table, `group, `stat
      ensures GroupShows(group, table) && Lists(table, stat, priority)
      ensures t == current ==> table == old(table) && stat == old(stat)[t := Running]
      ensures t != current ==> table == old(table)[priority(t) := old(table)[priority(t)] + [t]] && stat == old(stat)[t := Ready]
    {
      hide Bit, SetBit, Lists, GroupShows;
      ListsOf(table, stat, priority, t);
      ListsAppended(table, stat, priority, t);
      ListsMarked(table, stat, priority, t, Running);
      // the thread that runs is on no list
      if t == current {
        stat := stat[t := Running];
        return;
      }
      // any other queues up behind its equals
      stat := stat[t := Ready];
      var p := priority(t);
      ghost var table0 := table;
      table := table[p := table[p] + [t]];
      // its list is not empty now
      GroupSet(group, table0, p, table[p]);
      group := SetBit(group, p);
    }

    /** rt_schedule_remove_thread */
    method RemoveThread(t: Thread)
      requires GroupShows(group, table) && Lists(table, stat, priority)
      modifies `table, `group
      ensures GroupShows(group, table) && Lists(table, stat, priority) && !InTable(t)
      ensures table == old(table)[priority(t) := Omitted(old(table)[priority(t)], t)]
    {
      hide Bit, ClearBit, Lists, GroupShows, Omitted;
      ListsOf(table, stat, priority, t);
      ListsOmitted(table, stat, priority, t);
      OmittedMembers(table[priority(t)], t);
      var p := priority(t);
      ghost var table0 := table;
      // off its list, and the bit goes with the last one
      table := table[p := Omitted(table[p], t)];
      GroupClear(group, table0, p, table[p]);
      if table[p] == [] {
        group := ClearBit(group, p);
      }
    }

    /** The thread is suspended, and the processor is somebody else's. */
    predicate Blocked(t: Thread)
      reads `stat, `current
    {
      t in stat && stat[t] == Suspended && t != current
    }

    /** The thread is ready or runs. */
    predicate Listed(t: Thread)
      reads `stat
    {
      t in stat && (stat[t] == Ready || stat[t] == Running)
    }

    /** No ready thread is more urgent than the one that runs. */
    ghost predicate NoneMoreUrgent()
      reads `stat, `current
    {
      forall t :: t in stat && stat[t] == Ready ==> priority(current) <= priority(t)
    }

    /** The part of rt_schedule that changes the running thread. */
    method SwitchTo(to: Thread, needInsert: bool, ghost p: nat)
      requires Valid() && IsTop(table, p) && to == table[p][0]
      requires needInsert == IsRunning(current) && (needInsert ==> p <= priority(current))
      modifies `table, `group, `current, `stat
      ensures Valid() && current == to && priority(to) == p && IsRunning(to)
      ensures stat == (if needInsert then old(stat)[old(current) := Ready] else old(stat))[to := Running]
      ensures table == Switched(old(table), priority, old(current), needInsert, p)
      ensures (forall q :: 0 <= q < p ==> table[q] == []) && NoneMoreUrgent()
      ensures forall t :: (old(Blocked(t)) ==> Blocked(t)) && (old(Listed(t)) ==> Listed(t))
    {
      hide Bit, GroupShows, Omitted, Marked, Switched, Lists;
      ListsOf(table, stat, priority, to);
      ListsOf(table, stat, priority, current);
      SwitchedMarks(table, stat, current, priority, needInsert, p);
      var from := current;
      ghost var table0 := table;
      current := to;
      if needInsert {
        InsertThread(from);
      }
      RemoveThread(to);
      ListsMarked(table, stat, priority, to, Running);
      stat := stat[to := Running];
      SwitchedIs(table0, priority, from, needInsert, p);
      NoneListed(table, stat, current, priority, p);
    }

    /** rt_schedule: afterwards no ready thread is more urgent than the running one. `top` is the most urgent list there
        was. The running thread keeps the processor only if it is strictly more urgent; otherwise it goes to the end of
        its list and the first thread of the most urgent list runs. */
    method Schedule() returns (ghost top: nat)
      requires Valid()
      modifies `table, `group, `current, `stat
      ensures Valid() && old(Sized(Now(), priority)) && Now() == Rescheduled(old(Now()), priority)
      ensures lockNest == 0 ==> (forall q :: 0 <= q < priority(current) ==> table[q] == []) && NoneMoreUrgent()
      ensures forall t :: (old(Blocked(t)) ==> Blocked(t)) && (old(Listed(t)) ==> Listed(t))
      ensures lockNest != 0 || old(group) == 0 ==> table == old(table) && current == old(current) && stat == old(stat)
      ensures lockNest == 0 && old(group) > 0 ==> IsRunning(current) && IsTop(old(table), top)
      ensures lockNest == 0 && old(group) > 0 && old(IsRunning(current)) && priority(old(current)) < top ==>
                current == old(current) && table == old(table) && stat == old(stat)
      ensures lockNest == 0 && old(group) > 0 && !(old(IsRunning(current)) && priority(old(current)) < top) ==>
                current == old(table)[top][0]
                && stat == (if old(IsRunning(current)) then old(stat)[old(current) := Ready] else old(stat))[current := Running]
                && table == Switched(old(table), priority, old(current), old(IsRunning(current)), top)
    {
      hide Bit, RtFfs, GroupShows, Marked, Omitted, Switched, Lists, TopFrom;
      top := 0;
      SizedNow();
      ListsOf(table, stat, priority, current);
      GroupSize(group, table);
      NoGroup(group, table);
      if group == 0 {
        NoneListed(table, stat, current, priority, PRIORITIES);
        TopIs(table, PRIORITIES);
      }
      // a lock postpones the switch
      if lockNest == 0 && group != 0 {
        // whether the running thread queues up again
        var needInsert := false;
        FfsFindsTop(group, table);
        var highest := RtFfs(group) - 1;
        var to := table[highest][0];
        top := highest;
        TopIs(table, highest);
        if IsRunning(current) {
          if priority(current) < highest {
            to := current;
          } else {
            needInsert := true;
          }
        }
        if to != current {
          SwitchTo(to, needInsert, highest);
        } else {
          OmittedNothing(table[priority(current)], current);
          NoneListed(table, stat, current, priority, highest);
          RemoveThread(current);
          assert table == old(table);
          ListsMarked(table, stat, priority, current, Running);
          assert stat[current := Running] == stat;
          stat := stat[current := Running];
        }
      }
    }

    lemma SizedNow()
      requires Lists(table, stat, priority)
      ensures Sized(Now(), priority)
    {
    }

    /** rt_thread_suspend, as far as the scheduler is concerned: only for a thread that is ready or running. */
    method SuspendThread(t: Thread) returns (ok: bool)
      requires Valid()
      modifies `table, `group, `stat
      ensures Valid() && ok == (t in old(stat) && (old(stat)[t] == Ready || old(stat)[t] == Running))
      ensures !ok ==> table == old(table) && stat == old(stat)
      ensures old(Sized(Now(), priority)) && Now() == Next(old(Now()), Suspends(t), priority)
      ensures ok ==> stat == old(stat)[t := Suspended]
                     && table == old(table)[priority(t) := Omitted(old(table)[priority(t)], t)]
    {
      hide Bit, GroupShows, Omitted, Marked, Lists;
      SizedNow();
      if t !in stat || (stat[t] != Ready && stat[t] != Running) {
        return false;
      }
      MarkedSuspended(table, stat, current, priority, t);
      RemoveThread(t);
      ListsMarked(table, stat, priority, t, Suspended);
      stat := stat[t := Suspended];
      return true;
    }

    /** rt_thread_resume, as far as the scheduler is concerned */
    method ResumeThread(t: Thread) returns (ok: bool)
      requires Valid()
      modifies `table, `group, `stat
      ensures Valid() && ok == (t in old(stat) && old(stat)[t] == Suspended)
      ensures old(Sized(Now(), priority)) && Now() == Next(old(Now()), Resumes(t), priority)
      ensures !ok || t == current ==> table == old(table)
      ensures stat == if !ok then old(stat) else old(stat)[t := if t == current then Running else Ready]
      ensures ok && t != current ==> table == old(table)[priority(t) := old(table)[priority(t)] + [t]]
    {
      SizedNow();
      if t !in stat || stat[t] != Suspended {
        return false;
      }
      InsertThread(t);
      return true;
    }

    /** rt_thread_startup of a thread that was initialised: it becomes ready, and the scheduler decides. */
    method StartThread(t: Thread)
      requires Valid() && (t !in stat || stat[t] == Init)
      modifies `table, `group, `current, `stat
      ensures Valid() && Listed(t) && old(Sized(Now(), priority)) && Now() == Next(old(Now()), Starts(t), priority)
      ensures forall u :: (old(Blocked(u)) && u != t ==> Blocked(u)) && (old(Listed(u)) ==> Listed(u))
      ensures lockNest == 0 ==> NoneMoreUrgent()
      ensures lockNest != 0 ==> current == old(current)
    {
      hide GroupShows, Lists, Marked, Bit, Omitted, Switched, IsTop, Rescheduled, Resumed, TopFrom;
      SizedNow();
      ListsOf(table, stat, priority, t);
      ListsMarked(table, stat, priority, t, Suspended);
      SuspendedMarks(table, stat, current, priority, t);
      stat := stat[t := Suspended];
      var ok := ResumeThread(t);
      ghost var top := Schedule();
    }

    /** One event of the system. A suspended thread stays suspended unless it is resumed; unless the scheduler is locked
        the thread that runs after a call of rt_schedule is not less urgent than any that is ready. */
    method Step(e: Event)
      requires Valid()
      modifies `table, `group, `current, `stat, `lockNest
      ensures Valid() && old(Sized(Now(), priority)) && Now() == Next(old(Now()), e, priority)
      ensures lockNest == match e case EntersCritical => old(lockNest) + 1
                                  case ExitsCritical => if old(lockNest) <= 1 then 0 else old(lockNest) - 1
                                  case _ => old(lockNest)
      ensures e.Suspends? || e.Resumes? || lockNest != 0 ==> current == old(current)
      ensures e.Suspends? && old(Listed(e.t)) ==> e.t in stat && stat[e.t] == Suspended
      ensures e.Resumes? && old(Blocked(e.t)) ==> Listed(e.t)
      ensures forall t :: (old(Blocked(t)) && e != Resumes(t) ==> Blocked(t)) && (old(Listed(t)) && e != Suspends(t) ==> Listed(t))
      ensures e.Starts? && (e.t !in old(stat) || old(stat)[e.t] == Init) ==> Listed(e.t)
      ensures (e.Schedules? || e.ExitsCritical?) && lockNest == 0 ==> NoneMoreUrgent()
    {
      hide GroupShows, Lists, Marked, Switched, Omitted, Rescheduled;
      SizedNow();
      match e
      case Starts(t) => if t !in stat || stat[t] == Init { StartThread(t); }
      case Suspends(t) => var ok := SuspendThread(t);
      case Resumes(t) => var ok := ResumeThread(t);
      case Schedules => ghost var top := Schedule();
      case EntersCritical => lockNest := lockNest + 1;
      case ExitsCritical =>
        lockNest := lockNest - 1;
        if lockNest <= 0 {
          lockNest := 0;
          ghost var top := Schedule();
        }
    }

    /** Any events in any order keep the bits and the lists together, the lists and the marks, and the running thread out
        of the lists; a blocked thread stays blocked until it is resumed, and any other stays ready or running until it is
        suspended. */
    method Run(events: seq<Event>)
      requires Valid()
      modifies `table, `group, `current, `stat, `lockNest
      ensures Valid() && old(Sized(Now(), priority)) && Now() == After(old(Now()), events, priority)
      ensures forall p :: 0 <= p < PRIORITIES ==> (Bit(group, p) <==> table[p] != [])
      ensures forall p, t :: 0 <= p < PRIORITIES ==> (t in table[p] <==> t in stat && stat[t] == Ready && priority(t) == p)
      ensures forall t :: old(Blocked(t)) && Resumes(t) !in events ==> Blocked(t)
      ensures forall t :: old(Listed(t)) && Suspends(t) !in events ==> Listed(t)
    {
      hide GroupShows, Lists, Marked, Next;
      SizedNow();
      ghost var s := Now();
      for i := 0 to |events|
        invariant Valid() && Now() == After(s, events[..i], priority)
        invariant forall t :: old(Blocked(t)) && Resumes(t) !in events ==> Blocked(t)
        invariant forall t :: old(Listed(t)) && Suspends(t) !in events ==> Listed(t)
      {
        SizedNow();
        Step(events[i]);
        AfterOne(s, events[..i], events[i], priority);
        assert events[..i] + [events[i]] == events[..i + 1];
      }
      assert events[..|events|] == events;
      ListedAreReady();
    }

    lemma ListedAreReady()
      requires Valid()
      ensures |table| == PRIORITIES
      ensures forall p :: 0 <= p < PRIORITIES ==> (Bit(group, p) <==> table[p] != [])
      ensures forall p, t :: 0 <= p < PRIORITIES ==> (t in table[p] <==> t in stat && stat[t] == Ready && priority(t) == p)
    {
      hide Bit;
    }

    /** The current thread suspends itself: the lists stay as they are, and another thread is to run. */
    method GiveWay()
      requires Valid() && IsRunning(current) && lockNest == 0 && group > 0
      modifies `table, `group, `current, `stat
      ensures Valid() && Blocked(old(current))
    {
      hide GroupShows, Lists, Marked, Bit, Omitted, Switched, RtFfs;
      var self := current;
      GroupSize(group, table);
      FfsFindsTop(group, table);
      ghost var p, table0 := RtFfs(group) - 1, table;
      ListsOf(table, stat, priority, self);
      OmittedNothing(table[priority(self)], self);
      var ok := SuspendThread(self);
      assert table == table0;
      GroupNotEmpty(group, table, p);
      ghost var top := Schedule();
    }

    /** A thread that suspends itself gives way, whatever happens meanwhile it stays suspended until it is resumed, and
        then it is ready again, behind its equals. */
    method BlocksAndComesBack(events: seq<Event>) returns (ghost t: Thread)
      requires Valid() && IsRunning(current) && lockNest == 0 && group > 0
      requires Resumes(current) !in events
      modifies `table, `group, `current, `stat, `lockNest
      ensures Valid() && t == old(current) && t in stat && stat[t] == Ready
      ensures |table| == PRIORITIES && table[priority(t)] != [] && Last(table[priority(t)]) == t
    {
      hide GroupShows, Lists, Marked, Bit;
      var self := current;
      t := self;
      GiveWay();
      Run(events);
      ListsOf(table, stat, priority, self);
      var ok := ResumeThread(self);
      GroupSize(group, table);
    }

    /** One call while the running thread is not more urgent than list p: everybody in the list moves up by one. */
    method Turn(p: nat, ghost k: nat)
      requires Valid() && lockNest == 0 && IsRunning(current) && IsTop(table, p) && k < |table[p]| && p <= priority(current)
      modifies `table, `group, `current, `stat
      ensures Valid() && IsRunning(current) && current == old(table)[p][0] && priority(current) == p
      ensures k > 0 ==> IsTop(table, p) && k - 1 < |table[p]| && table[p][k - 1] == old(table)[p][k]
    {
      hide Bit, Switched;
      ghost var was, from := table, current;
      GroupNotEmpty(group, table, p);
      ghost var top := Schedule();
      TopOnce(was, top, p);
      assert was[p][0] in was[p];
      SwitchedLists(was, priority, from, p, k);
    }

    /** One call while the running thread is more urgent than all lists: nothing moves. */
    method Stay(ghost p: nat)
      requires Valid() && lockNest == 0 && IsRunning(current) && IsTop(table, p) && priority(current) < p
      modifies `table, `group, `current, `stat
      ensures Valid() && IsRunning(current) && table == old(table) && current == old(current)
    {
      hide Bit, Switched;
      GroupNotEmpty(group, table, p);
      ghost var top := Schedule();
      TopOnce(old(table), top, p);
    }

    /** Thread number k of the most urgent ready list runs after k + 1 calls of rt_schedule, with nothing happening in
        between, if and only if the running thread is not more urgent than that list. */
    method Turns(p: nat, k: nat)
      requires Valid() && lockNest == 0 && IsRunning(current) && IsTop(table, p) && k < |table[p]|
      modifies `table, `group, `current, `stat
      ensures Valid() && (current == old(table)[p][k] <==> priority(old(current)) >= p)
    {
      hide GroupShows, Lists, Bit;
      ghost var target, first, table0 := table[p][k], current, table;
      ListedPriority(p, k);
      if priority(current) < p {
        for i := 0 to k + 1
          invariant Valid() && lockNest == 0 && IsRunning(current) && table == table0 && current == first
        {
          Stay(p);
        }
      } else {
        for i := 0 to k + 1
          invariant Valid() && lockNest == 0 && IsRunning(current) && priority(current) >= p
          invariant i <= k ==> IsTop(table, p) && k - i < |table[p]| && table[p][k - i] == target
          invariant i == k + 1 ==> current == target
        {
          Turn(p, k - i);
        }
      }
    }

    lemma ListedPriority(p: nat, k: nat)
      requires Valid() && p < |table| && k < |table[p]|
      ensures priority(table[p][k]) == p
    {
      assert table[p][k] in table[p];
    }
  }

  datatype Event = Starts(t: Thread) | Suspends(t: Thread) | Resumes(t: Thread) | Schedules | EntersCritical | ExitsCritical

  lemma GroupSize(group: nat, table: Table)
    requires GroupShows(group, table)
    ensures |table| == PRIORITIES && group < WORD_LIMIT
  {
  }

  /** With nothing in the lists of more urgent threads, no more urgent thread is marked ready. */
  lemma NoneListed(table: Table, stat: map<Thread, Stat>, current: Thread, priority: Thread -> nat, n: nat)
    requires Marked(table, stat, current, priority) && n <= |table| && forall q :: 0 <= q < n ==> table[q] == []
    ensures forall t :: t in stat && stat[t] == Ready ==> n <= priority(t)
  {
  }

  lemma SuspendedMarks(table: Table, stat: map<Thread, Stat>, current: Thread, priority: Thread -> nat, t: Thread)
    requires Marked(table, stat, current, priority)
    ensures Marked(table, stat[t := Suspended], current, priority)
  {
  }

  lemma MarkedSuspended(table: Table, stat: map<Thread, Stat>, current: Thread, priority: Thread -> nat, t: Thread)
    requires Marked(table, stat, current, priority) && Lists(table, stat, priority)
    ensures priority(t) < |table| && priority(current) < |table|
    ensures var table' := table[priority(t) := Omitted(table[priority(t)], t)];
            Marked(table', stat[t := Suspended], current, priority)
            && (current !in table[priority(current)] ==> current !in table'[priority(current)])
  {
    hide Omitted;
    OmittedMembers(table[priority(t)], t);
  }

  lemma NoGroup(group: nat, table: Table)
    requires GroupShows(group, table)
    ensures group == 0 ==> forall q :: 0 <= q < PRIORITIES ==> table[q] == []
  {
    hide Bit;
    if group == 0 {
      forall q | 0 <= q < PRIORITIES
        ensures table[q] == []
      {
        NoBits(q);
      }
    }
  }

  lemma GroupNotEmpty(group: nat, table: Table, p: nat)
    requires GroupShows(group, table) && p < PRIORITIES
    ensures table[p] != [] ==> group > 0
  {
    hide Bit;
    NoBits(p);
  }

  lemma TopOnce(table: Table, p: nat, q: nat)
    requires IsTop(table, p) && q < |table|
    ensures table[q] != [] && (forall r :: 0 <= r < q ==> table[r] == []) ==> p == q
  {
  }

  lemma OmittedNothing(s: seq<Thread>, t: Thread)
    ensures t !in s ==> Omitted(s, t) == s
  {
    if s != [] && t !in s {
      HeadTail(s);
      OmittedNothing(s[1..], t);
    }
  }

  /** What a switch does to the lists from p on upwards in urgency: the first thread of list p leaves it. */
  lemma SwitchedLists(table: Table, priority: Thread -> nat, from: Thread, p: nat, k: nat)
    requires IsTop(table, p) && |table| == PRIORITIES && p <= priority(from) < PRIORITIES && k < |table[p]|
    ensures var t := Switched(table, priority, from, true, p);
            && |t| == PRIORITIES && (forall q :: 0 <= q < p ==> t[q] == [])
            && (k > 0 ==> k - 1 < |t[p]| && t[p][k - 1] == table[p][k])
  {
    var l := table[p];
    HeadTail(l);
    assert Omitted(l, l[0]) == l[1..];
    assert Omitted(l + [from], l[0]) == (l + [from])[1..];
  }

  /** The most urgent ready list: the first that is not empty. */
  ghost predicate IsTop(table: Table, p: nat) {
    p < |table| && table[p] != [] && forall q :: 0 <= q < p ==> table[q] == []
  }

  lemma FfsFindsTop(group: nat, table: Table)
    requires GroupShows(group, table) && group > 0
    ensures RtFfs(group) > 0 && IsTop(table, RtFfs(group) - 1)
  {
    hide Ctz, Bit, RtFfs;
    FfsIsRight(group);
    LowestIsSet(group);
    CtzAtMost(group);
    WordSizes();
    if Ctz(group) >= 32 { Exp2Mono(32, Ctz(group)); }
  }

  lemma SwitchedIs(table: Table, priority: Thread -> nat, current: Thread, insert: bool, p: nat)
    requires IsTop(table, p) && priority(current) < |table|
    ensures var t := if insert then table[priority(current) := table[priority(current)] + [current]] else table;
            Switched(table, priority, current, insert, p) == t[p := Omitted(t[p], table[p][0])]
    ensures (insert ==> p <= priority(current)) ==>
              |Switched(table, priority, current, insert, p)| == |table|
              && forall q :: 0 <= q < p ==> Switched(table, priority, current, insert, p)[q] == []
  {
    hide Omitted;
  }

  /** A switch keeps marks and lists together. */
  lemma SwitchedMarks(table: Table, stat: map<Thread, Stat>, current: Thread, priority: Thread -> nat, insert: bool, p: nat)
    requires IsTop(table, p) && priority(current) < |table| && Marked(table, stat, current, priority)
    requires insert == (current in stat && stat[current] == Running)
    requires forall q :: 0 <= q < |table| ==> Distinct(table[q]) && current !in table[q]
    ensures var to := table[p][0];
            Marked(Switched(table, priority, current, insert, p),
                   (if insert then stat[current := Ready] else stat)[to := Running], to, priority)
  {
    hide Omitted;
    var to := table[p][0];
    assert to in table[p];
    OmittedMembers(table[p], to);
    AppendDistinct(table[p], current);
    OmittedMembers(table[p] + [current], to);
  }

  /** The ready lists after a switch from a running thread to the first thread of list p. */
  function Switched(table: Table, priority: Thread -> nat, current: Thread, insert: bool, p: nat): Table
    requires p < |table| && table[p] != [] && priority(current) < |table|
  {
    var t := if insert then table[priority(current) := table[priority(current)] + [current]] else table;
    t[p := Omitted(t[p], table[p][0])]
  }

  /** A list without a thread. */
  function Omitted(s: seq<Thread>, t: Thread): seq<Thread> {
    if s == [] then [] else if s[0] == t then s[1..] else [s[0]] + Omitted(s[1..], t)
  }

  lemma {:induction false} OmittedMembers(s: seq<Thread>, t: Thread)
    requires Distinct(s)
    ensures Distinct(Omitted(s, t)) && forall x :: x in Omitted(s, t) <==> x in s && x != t
    ensures s == [] ==> Omitted(s, t) == []
  {
    if s != [] {
      RestDistinct(s);
      if s[0] != t {
        OmittedMembers(s[1..], t);
        ConsDistinct(s[0], Omitted(s[1..], t));
      }
    }
  }

  lemma RestDistinct(s: seq<Thread>)
    requires Distinct(s) && s != []
    ensures Distinct(s[1..]) && s[0] !in s[1..] && forall x :: x in s <==> x == s[0] || x in s[1..]
  {
    forall i, k | 0 <= i < k < |s[1..]|
      ensures s[1..][i] != s[1..][k]
    {
      assert s[i + 1] != s[k + 1];
    }
    HeadTail(s);
  }

  lemma ConsDistinct(t: Thread, s: seq<Thread>)
    requires Distinct(s) && t !in s
    ensures Distinct([t] + s)
  {
  }

  lemma AppendDistinct(s: seq<Thread>, t: Thread)
    requires Distinct(s) && t !in s
    ensures Distinct(s + [t])
  {
  }

  lemma GroupSet(group: nat, table: Table, p: nat, list: seq<Thread>)
    requires GroupShows(group, table) && p < PRIORITIES && list != []
    ensures GroupShows(SetBit(group, p), table[p := list])
  {
    hide Bit, SetBit;
    WordSizes();
    SetBitBound(group, p, 32);
    var group', table' := SetBit(group, p), table[p := list];
    forall q | 0 <= q < PRIORITIES
      ensures Bit(group', q) <==> table'[q] != []
    {
      SetBitBits(group, p, q);
    }
  }

  lemma GroupClear(group: nat, table: Table, p: nat, list: seq<Thread>)
    requires GroupShows(group, table) && p < PRIORITIES && (list != [] ==> table[p] != [])
    ensures GroupShows(if list == [] then ClearBit(group, p) else group, table[p := list])
  {
    hide Bit;
    var group', table' := if list == [] then ClearBit(group, p) else group, table[p := list];
    forall q | 0 <= q < PRIORITIES
      ensures Bit(group', q) <==> table'[q] != []
    {
      ClearBitBits(group, p, q);
    }
  }
}
