/** rt_mb: a ring of values with threads waiting on both sides. */
module Mailbox {
  import opened Sequences
  import opened Rings

  type Thread = nat

  datatype Order = Fifo | ByPriority

  /** What a call comes to: it is done, has failed, or the thread is waiting. */
  datatype Outcome = Done(value: nat) | Full | TimedOut | Failed | Waiting

  // ---------------------------------------------------------------- lists of waiting threads

  /** The position at which a thread of priority p goes: before the first thread of a strictly larger number. */
  function Place(list: seq<Thread>, priority: Thread -> nat, p: nat): (i: nat)
    ensures i <= |list|
  {
    if list == [] then 0
    else if p < priority(list[0]) then 0
    else 1 + Place(list[1..], priority, p)
  }

  /** rt_ipc_list_suspend: where a waiting thread is put. */
  method Suspend(list: seq<Thread>, t: Thread, order: Order, priority: Thread -> nat) returns (r: seq<Thread>)
    ensures r == Suspended(list, t, order, priority)
  {
    match order
    case Fifo =>
      r := list + [t];
    case ByPriority =>
      var n := 0;
      // ahead of the first less urgent waiter
      while n < |list| && !(priority(t) < priority(list[n]))
        invariant n <= |list| && Place(list, priority, priority(t)) == n + Place(list[n..], priority, priority(t))
      {
        assert list[n..][1..] == list[n + 1..];
        n := n + 1;
      }
      r := list[..n] + [t] + list[n..];
  }

  function Suspended(list: seq<Thread>, t: Thread, order: Order, priority: Thread -> nat): seq<Thread> {
    if order == Fifo then list + [t]
    else InsertAt(list, Place(list, priority, priority(t)), t)
  }

  /** Waiting threads in order of priority, the smallest number first. */
  ghost predicate Sorted(list: seq<Thread>, priority: Thread -> nat) {
    forall i, j :: 0 <= i < j < |list| ==> priority(list[i]) <= priority(list[j])
  }

  lemma {:induction false} PlaceSplits(list: seq<Thread>, priority: Thread -> nat, p: nat)
    requires Sorted(list, priority)
    ensures forall i :: 0 <= i < Place(list, priority, p) ==> priority(list[i]) <= p
    ensures forall i :: Place(list, priority, p) <= i < |list| ==> p < priority(list[i])
    decreases |list|
  {
    if list != [] && priority(list[0]) <= p {
      PlaceSplits(list[1..], priority, p);
      forall i | 0 <= i < |list|
        ensures i < Place(list, priority, p) ==> priority(list[i]) <= p
        ensures Place(list, priority, p) <= i ==> p < priority(list[i])
      {
        if i > 0 { assert list[i] == list[1..][i - 1]; }
      }
    }
  }

  /** The list stays sorted, and a new thread goes behind the threads of its own priority: the one that is woken first
      has waited longest among the most urgent. */
  lemma StaysSorted(list: seq<Thread>, t: Thread, priority: Thread -> nat)
    requires Sorted(list, priority)
    ensures Sorted(Suspended(list, t, ByPriority, priority), priority)
    ensures var r, n := Suspended(list, t, ByPriority, priority), Place(list, priority, priority(t));
            r[n] == t && (forall i :: 0 <= i < n ==> r[i] == list[i] && priority(list[i]) <= priority(t))
            && (forall i :: n <= i < |list| ==> r[i + 1] == list[i] && priority(t) < priority(list[i]))
  {
    hide InsertAt, Place;
    var p := priority(t);
    var n, r := Place(list, priority, p), Suspended(list, t, ByPriority, priority);
    PlaceSplits(list, priority, p);
    InsertAtElements(list, n, t);
    forall i | n <= i < |list|
      ensures r[i + 1] == list[i]
    {
      assert r[i + 1] == list[i + 1 - 1];
    }
    forall i, j | 0 <= i < j < |r|
      ensures priority(r[i]) <= priority(r[j])
    {
      var i', j' := if i <= n then i else i - 1, if j <= n then j else j - 1;
      assert (i != n ==> r[i] == list[i']) && (j != n ==> r[j] == list[j']);
    }
  }

  lemma SuspendedMembers(list: seq<Thread>, t: Thread, order: Order, priority: Thread -> nat)
    ensures Suspended(list, t, order, priority) != []
    ensures forall u :: u in Suspended(list, t, order, priority) <==> u in list || u == t
    ensures Distinct(list) && t !in list ==> Distinct(Suspended(list, t, order, priority))
  {
    if order == ByPriority {
      var n := Place(list, priority, priority(t));
      InsertAtElements(list, n, t);
      if Distinct(list) && t !in list { DistinctInsert(list, n, t); }
    }
  }

  lemma StaysInTurn(list: seq<Thread>, t: Thread, order: Order, priority: Thread -> nat)
    requires order == ByPriority ==> Sorted(list, priority)
    ensures order == ByPriority ==> Sorted(Suspended(list, t, order, priority), priority)
  {
    hide Sorted, Suspended;
    if order == ByPriority { StaysSorted(list, t, priority); }
  }

  /** The list without this thread, in the same order. */
  function Without(list: seq<Thread>, t: Thread): seq<Thread> {
    if list == [] then [] else if list[0] == t then list[1..] else [list[0]] + Without(list[1..], t)
  }

  lemma {:induction false} WithoutNone(list: seq<Thread>, t: Thread)
    requires t !in list
    ensures Without(list, t) == list
  {
    if list != [] {
      HeadTail(list);
      WithoutNone(list[1..], t);
    }
  }

  lemma {:induction false} WithoutAt(list: seq<Thread>, i: nat)
    requires Distinct(list) && i < |list|
    ensures Without(list, list[i]) == RemoveAt(list, i)
  {
    hide RemoveAt, Distinct;
    if i > 0 {
      DistinctRest(list);
      WithoutAt(list[1..], i - 1);
      HeadDiffers(list, i);
      RemoveBehindHead(list, i);
    } else {
      RemoveHead(list);
    }
  }

  lemma HeadDiffers(list: seq<Thread>, i: nat)
    requires Distinct(list) && 0 < i < |list|
    ensures list[0] != list[i]
  {
  }

  lemma RemoveHead(list: seq<Thread>)
    requires list != []
    ensures RemoveAt(list, 0) == list[1..]
  {
  }

  lemma RemoveBehindHead(list: seq<Thread>, i: nat)
    requires 0 < i < |list|
    ensures RemoveAt(list, i) == [list[0]] + RemoveAt(list[1..], i - 1)
  {
  }

  lemma TakenOut(list: seq<Thread>, i: nat, priority: Thread -> nat)
    requires i < |list| && Distinct(list)
    ensures Without(list, list[i]) == RemoveAt(list, i) && Distinct(RemoveAt(list, i))
    ensures forall u :: u in RemoveAt(list, i) <==> u in list && u != list[i]
    ensures Sorted(list, priority) ==> Sorted(RemoveAt(list, i), priority)
  {
    RemoveAtElements(list, i);
    DistinctRemove(list, i);
    WithoutAt(list, i);
  }

  // ---------------------------------------------------------------- who waits

  /** The two lists of waiting threads, and the threads that were resumed to try again and have not run since. */
  datatype Waiters = Waiters(receivers: seq<Thread>, senders: seq<Thread>, wokenReceivers: set<Thread>, wokenSenders: set<Thread>)
  {
    /** Every thread waits in one place at most. */
    ghost predicate Apart() {
      && wokenReceivers !! wokenSenders
      && (forall t :: t in receivers ==> t !in senders && t !in wokenReceivers && t !in wokenSenders)
      && (forall t :: t in senders ==> t !in wokenReceivers && t !in wokenSenders)
      && Distinct(receivers) && Distinct(senders)
    }

    predicate Idle(t: Thread) {
      t !in receivers && t !in senders && t !in wokenReceivers && t !in wokenSenders
    }

    /** With waiting by priority, nobody waits behind a less urgent thread. */
    ghost predicate InTurn(order: Order, priority: Thread -> nat) {
      order == ByPriority ==> Sorted(receivers, priority) && Sorted(senders, priority)
    }

    /** The threads whose calls are not over. */
    function Pending(): set<Thread> {
      Members(receivers) + Members(senders) + wokenReceivers + wokenSenders
    }

    /** A thread that runs has used up its wakeup. */
    function Runs(t: Thread): Waiters {
      this.(wokenReceivers := wokenReceivers - {t}, wokenSenders := wokenSenders - {t})
    }

    function WithReceiver(t: Thread, order: Order, priority: Thread -> nat): Waiters {
      this.(receivers := Suspended(receivers, t, order, priority))
    }

    function WithSender(t: Thread, order: Order, priority: Thread -> nat): Waiters {
      this.(senders := Suspended(senders, t, order, priority))
    }

    /** The first waiting receiver is woken. */
    function ReceiverWoken(): Waiters {
      if receivers == [] then this
      else this.(receivers := receivers[1..], wokenReceivers := wokenReceivers + {receivers[0]})
    }

    function SenderWoken(): Waiters {
      if senders == [] then this else this.(senders := senders[1..], wokenSenders := wokenSenders + {senders[0]})
    }

    /** Nobody sleeps next to something to do: as long as receivers wait, every message has a woken receiver coming for
        it; as long as senders wait, every free place has a woken sender coming for it. */
    ghost predicate Enough(entry: nat, size: nat) {
      && (receivers != [] ==> entry <= |wokenReceivers|)
      && (senders != [] ==> size - entry <= |wokenSenders|)
    }

    ghost predicate Fine(order: Order, priority: Thread -> nat) { Apart() && InTurn(order, priority) }

    lemma RunsKeeps(t: Thread, order: Order, priority: Thread -> nat)
      requires Fine(order, priority) && t !in receivers && t !in senders
      ensures Runs(t).Fine(order, priority) && Runs(t).Idle(t) && Runs(t).Pending() == Pending() - {t}
      ensures |Runs(t).wokenReceivers| == |wokenReceivers| - if t in wokenReceivers then 1 else 0
      ensures |Runs(t).wokenSenders| == |wokenSenders| - if t in wokenSenders then 1 else 0
    {
      hide Sorted, Distinct;
    }

    /** Who is idle or woken is in no list, and in one set at most. */
    lemma Alone(t: Thread, order: Order, priority: Thread -> nat)
      requires Fine(order, priority) && (Idle(t) || t in wokenReceivers || t in wokenSenders)
      ensures t !in receivers && t !in senders
      ensures t in wokenSenders ==> Runs(t) == this.(wokenSenders := wokenSenders - {t})
      ensures t in wokenReceivers ==> Runs(t) == this.(wokenReceivers := wokenReceivers - {t})
      ensures Idle(t) ==> Runs(t) == this
    {
      hide InTurn, Distinct;
    }

    /** What a sender does keeps enough threads awake. */
    lemma SendKeeps(t: Thread, entry: nat, size: nat, order: Order, priority: Thread -> nat)
      requires Fine(order, priority) && Enough(entry, size) && entry <= size && (Idle(t) || t in wokenSenders)
      ensures var w := Runs(t);
              if entry < size then w.ReceiverWoken().Enough(entry + 1, size)
              else w.Enough(entry, size) && w.WithSender(t, order, priority).Enough(entry, size)
    {
      hide InTurn, Pending, Suspended;
      assert t !in receivers && t !in senders && t !in wokenReceivers;
      RunsKeeps(t, order, priority);
      Runs(t).WakeReceiverKeeps(order, priority);
    }

    lemma ReceiveKeeps(t: Thread, entry: nat, size: nat, order: Order, priority: Thread -> nat)
      requires Fine(order, priority) && Enough(entry, size) && entry <= size && (Idle(t) || t in wokenReceivers)
      ensures var w := Runs(t);
              if entry > 0 then w.SenderWoken().Enough(entry - 1, size)
              else w.Enough(entry, size) && w.WithReceiver(t, order, priority).Enough(entry, size)
    {
      hide InTurn, Pending, Suspended;
      assert t !in receivers && t !in senders && t !in wokenSenders;
      RunsKeeps(t, order, priority);
      Runs(t).WakeSenderKeeps(order, priority);
    }

    lemma WaitKeeps(t: Thread, order: Order, priority: Thread -> nat)
      requires Fine(order, priority) && Idle(t)
      ensures WithReceiver(t, order, priority).Fine(order, priority) && WithSender(t, order, priority).Fine(order, priority)
      ensures WithReceiver(t, order, priority).Pending() == Pending() + {t}
      ensures WithSender(t, order, priority).Pending() == Pending() + {t}
      ensures WithReceiver(t, order, priority).receivers != [] && WithSender(t, order, priority).senders != []
    {
      hide Sorted, Distinct, Suspended;
      SuspendedMembers(receivers, t, order, priority);
      SuspendedMembers(senders, t, order, priority);
      StaysInTurn(receivers, t, order, priority);
      StaysInTurn(senders, t, order, priority);
    }

    lemma WakeReceiverKeeps(order: Order, priority: Thread -> nat)
      requires Fine(order, priority)
      ensures ReceiverWoken().Fine(order, priority) && ReceiverWoken().Pending() == Pending()
      ensures |ReceiverWoken().wokenReceivers| == |wokenReceivers| + if receivers == [] then 0 else 1
    {
      if receivers != [] {
        HeadMembers(receivers);
        RestSorted(receivers, priority);
        DistinctRest(receivers);
      }
    }

    lemma WakeSenderKeeps(order: Order, priority: Thread -> nat)
      requires Fine(order, priority)
      ensures SenderWoken().Fine(order, priority) && SenderWoken().Pending() == Pending()
      ensures |SenderWoken().wokenSenders| == |wokenSenders| + if senders == [] then 0 else 1
    {
      if senders != [] {
        HeadMembers(senders);
        RestSorted(senders, priority);
        DistinctRest(senders);
      }
    }

    /** Everybody leaves the lists. */
    lemma EmptyingKeeps(order: Order, priority: Thread -> nat)
      requires Fine(order, priority)
      ensures var w := this.(receivers := [], senders := []);
              w.Fine(order, priority) && w.Pending() == Pending() - (Members(receivers) + Members(senders))
    {
    }

    /** A thread leaves the list it waits in. */
    lemma LeavingKeeps(t: Thread, i: nat, order: Order, priority: Thread -> nat)
      requires Fine(order, priority)
      ensures i < |receivers| && receivers[i] == t ==>
                t !in senders && RemoveAt(receivers, i) == Without(receivers, t) && Without(senders, t) == senders
      ensures i < |senders| && senders[i] == t ==>
                t !in receivers && RemoveAt(senders, i) == Without(senders, t) && Without(receivers, t) == receivers
      ensures (i < |receivers| && receivers[i] == t) || (i < |senders| && senders[i] == t) ==>
                Left(t).Fine(order, priority) && Left(t).Pending() == Pending() - {t}
    {
      hide Sorted, Distinct, Without;
      if t !in receivers { WithoutNone(receivers, t); }
      if t !in senders { WithoutNone(senders, t); }
      if i < |receivers| { TakenOut(receivers, i, priority); }
      if i < |senders| { TakenOut(senders, i, priority); }
    }

    /** A thread is no longer waiting. */
    function Left(t: Thread): Waiters {
      this.(receivers := Without(receivers, t), senders := Without(senders, t))
    }
  }

  function Members(list: seq<Thread>): set<Thread> { set t | t in list }

  lemma HeadMembers(list: seq<Thread>)
    requires list != []
    ensures list[0] in list && forall t :: t in list <==> t == list[0] || t in list[1..]
  {
    HeadTail(list);
  }

  lemma RestSorted(list: seq<Thread>, priority: Thread -> nat)
    requires list != []
    ensures Sorted(list, priority) ==> Sorted(list[1..], priority)
  {
  }

  // ---------------------------------------------------------------- the mailbox as a value

  /** The messages and who waits. */
  datatype State = State(q: seq<nat>, who: Waiters)

  /** What an event makes of a mailbox of this size; nothing if it cannot happen. */
  function Next(s: State, e: Event, size: nat, order: Order, priority: Thread -> nat): State {
    match e
    case Sends(t, value, wait) => if s.who.Idle(t) then AfterSend(s, t, value, wait, size, order, priority) else s
    case SendsAgain(t, value, wait) => if t in s.who.wokenSenders then AfterSend(s, t, value, wait, size, order, priority) else s
    case Receives(t, wait) => if s.who.Idle(t) then AfterReceive(s, t, wait, order, priority) else s
    case ReceivesAgain(t, wait) => if t in s.who.wokenReceivers then AfterReceive(s, t, wait, order, priority) else s
    case Expires(t) => State(s.q, s.who.Left(t))
    case Resets => State([], s.who.(receivers := [], senders := []))
  }

  function AfterSend(s: State, t: Thread, value: nat, wait: bool, size: nat, order: Order, priority: Thread -> nat): State {
    if |s.q| < size then State(s.q + [value], s.who.Runs(t).ReceiverWoken())
    else State(s.q, if wait then s.who.Runs(t).WithSender(t, order, priority) else s.who.Runs(t))
  }

  function AfterReceive(s: State, t: Thread, wait: bool, order: Order, priority: Thread -> nat): State {
    if s.q != [] then State(s.q[1..], s.who.Runs(t).SenderWoken())
    else State(s.q, if wait then s.who.Runs(t).WithReceiver(t, order, priority) else s.who.Runs(t))
  }

  function After(s: State, events: seq<Event>, size: nat, order: Order, priority: Thread -> nat): State {
    if events == [] then s else Next(After(s, Front(events), size, order, priority), Last(events), size, order, priority)
  }

  lemma AfterOne(s: State, events: seq<Event>, e: Event, size: nat, order: Order, priority: Thread -> nat)
    ensures After(s, events + [e], size, order, priority) == Next(After(s, events, size, order, priority), e, size, order, priority)
  {
    Snoc(events, e);
  }

  // ---------------------------------------------------------------- the mailbox

  class Box {
    const pool: array<nat>
    const order: Order
    const priority: Thread -> nat
    var entry: nat
    var inOffset: nat
    var outOffset: nat
    var receivers: seq<Thread>
    var senders: seq<Thread>

    /** Threads that were resumed to try again, and have not run since. */
    var wokenReceivers: set<Thread>
    var wokenSenders: set<Thread>

    function Size(): nat { pool.Length }

    ghost predicate InRing()
      reads `entry, `inOffset, `outOffset
    {
      entry <= Size() && (Size() > 0 ==> outOffset < Size() && inOffset == Wrap(outOffset + entry, Size()))
    }

    /** The messages waiting, oldest first. */
    ghost function Messages(): (q: seq<nat>)
      requires InRing()
      reads `entry, `inOffset, `outOffset, pool
      ensures |q| == entry
    {
      if Size() == 0 then [] else FromRing(pool[..], outOffset, entry)
    }

    function Who(): Waiters
      reads `receivers, `senders, `wokenReceivers, `wokenSenders
    {
      Waiters(receivers, senders, wokenReceivers, wokenSenders)
    }

    ghost function Now(): State
      requires InRing()
      reads `entry, `inOffset, `outOffset, `receivers, `senders, `wokenReceivers, `wokenSenders, pool
    {
      State(Messages(), Who())
    }

    ghost predicate Valid()
      reads `entry, `inOffset, `outOffset, `receivers, `senders, `wokenReceivers, `wokenSenders
    {
      InRing() && Who().Enough(entry, Size()) && Who().Fine(order, priority)
    }

    /** rt_mb_init */
    constructor (size: nat, order: Order, priority: Thread -> nat)
      ensures Valid() && fresh(pool) && Size() == size && Messages() == [] && Who() == Waiters([], [], {}, {})
      ensures this.order == order && this.priority == priority
    {
      pool := new nat[size];
      this.order, this.priority := order, priority;
      entry, inOffset, outOffset := 0, 0, 0;
      receivers, senders, wokenReceivers, wokenSenders := [], [], {}, {};
    }

    /** The end of rt_mb_send_wait, when there is room. */
    method Put(value: nat)
      requires InRing() && entry < Size()
      modifies this`inOffset, this`entry, pool
      ensures InRing() && Messages() == old(Messages()) + [value] && entry == old(entry) + 1
    {
      ghost var was := pool[..];
      pool[inOffset] := value;
      // the in offset wraps around
      inOffset := inOffset + 1;
      if inOffset >= Size() {
        inOffset := 0;
      }
      entry := entry + 1;
      RingPut(was, outOffset, old(entry), value);
      assert pool[..] == was[old(inOffset) := value];
    }

    /** The end of rt_mb_recv, when there is a message. */
    method Get() returns (value: nat)
      requires InRing() && entry > 0
      modifies this`outOffset, this`entry
      ensures InRing() && old(Messages()) == [value] + Messages() && entry == old(entry) - 1
    {
      RingGet(pool[..], outOffset, entry);
      value := pool[outOffset];
      // the out offset wraps around
      outOffset := outOffset + 1;
      if outOffset >= Size() {
        outOffset := 0;
      }
      entry := entry - 1;
    }

    /** rt_ipc_list_resume of the receivers. */
    method WakeReceiver()
      modifies this`receivers, this`wokenReceivers
      ensures Who() == old(Who()).ReceiverWoken()
    {
      if receivers != [] {
        wokenReceivers := wokenReceivers + {receivers[0]};
        receivers := receivers[1..];
      }
    }

    /** rt_ipc_list_resume of the senders. */
    method WakeSender()
      modifies this`senders, this`wokenSenders
      ensures Who() == old(Who()).SenderWoken()
    {
      if senders != [] {
        wokenSenders := wokenSenders + {senders[0]};
        senders := senders[1..];
      }
    }

    /** The sender's wakeup, if it got one, is used up. */
    method SenderRuns(t: Thread, woken: bool)
      requires Who().Fine(order, priority) && if woken then t in wokenSenders else Who().Idle(t)
      modifies this`wokenSenders
      ensures Who() == old(Who()).Runs(t) && Who().Fine(order, priority) && Who().Idle(t)
      ensures Who().Pending() == old(Who()).Pending() - {t}
    {
      hide Waiters.Fine, Waiters.Pending, Waiters.Idle, Waiters.Runs;
      Who().Alone(t, order, priority);
      Who().RunsKeeps(t, order, priority);
      if woken {
        wokenSenders := wokenSenders - {t};
      }
    }

    /** rt_mb_send_wait, from the call or from the point where a resumed thread tries again (`woken`). `wait` tells that
        there is time left to wait. */
    method Send(t: Thread, value: nat, woken: bool, wait: bool) returns (r: Outcome)
      requires Valid() && if woken then t in wokenSenders else Who().Idle(t)
      modifies this`inOffset, this`entry, this`receivers, this`senders, this`wokenReceivers, this`wokenSenders, pool
      ensures Valid() && r == if old(entry) < Size() then Done(0) else if wait then Waiting else Full
      ensures Messages() == if r == Done(0) then old(Messages()) + [value] else old(Messages())
      ensures Who() == if r == Done(0) then old(Who()).Runs(t).ReceiverWoken()
                       else if wait then old(Who()).Runs(t).WithSender(t, order, priority)
                       else old(Who()).Runs(t)
      ensures Who().Pending() == if r == Waiting then old(Who()).Pending() + {t} else old(Who()).Pending() - {t}
    {
      hide Suspended, FromRing, Wrap, Messages, Waiters.Fine, Waiters.Pending, Waiters.Idle, Waiters.Enough, Waiters.Runs,
        Waiters.ReceiverWoken;
      ghost var w := Who().Runs(t);
      Who().SendKeeps(t, entry, Size(), order, priority);
      SenderRuns(t, woken);
      // no place: wait or give up
      if entry == Size() {
        if !wait {
          return Full;
        }
        w.WaitKeeps(t, order, priority);
        senders := Suspend(senders, t, order, priority);
        return Waiting;
      }
      Put(value);
      // the message may be what somebody waits for
      w.WakeReceiverKeeps(order, priority);
      WakeReceiver();
      return Done(0);
    }

    /** The receiver's wakeup, if it got one, is used up. */
    method ReceiverRuns(t: Thread, woken: bool)
      requires Who().Fine(order, priority) && if woken then t in wokenReceivers else Who().Idle(t)
      modifies this`wokenReceivers
      ensures Who() == old(Who()).Runs(t) && Who().Fine(order, priority) && Who().Idle(t)
      ensures Who().Pending() == old(Who()).Pending() - {t}
    {
      hide Waiters.Fine, Waiters.Pending, Waiters.Idle, Waiters.Runs;
      Who().Alone(t, order, priority);
      Who().RunsKeeps(t, order, priority);
      if woken {
        wokenReceivers := wokenReceivers - {t};
      }
    }

    /** rt_mb_recv, from the call or from the point where a resumed thread tries again. */
    method Receive(t: Thread, woken: bool, wait: bool) returns (r: Outcome)
      requires Valid() && if woken then t in wokenReceivers else Who().Idle(t)
      modifies this`outOffset, this`entry, this`receivers, this`senders, this`wokenReceivers, this`wokenSenders
      ensures Valid() && r == if old(entry) > 0 then Done(old(Messages())[0]) else if wait then Waiting else TimedOut
      ensures Messages() == if r.Done? then old(Messages())[1..] else old(Messages())
      ensures Who() == if r.Done? then old(Who()).Runs(t).SenderWoken()
                       else if wait then old(Who()).Runs(t).WithReceiver(t, order, priority)
                       else old(Who()).Runs(t)
      ensures Who().Pending() == if r == Waiting then old(Who()).Pending() + {t} else old(Who()).Pending() - {t}
    {
      hide Suspended, FromRing, Wrap, Messages, Waiters.Fine, Waiters.Pending, Waiters.Idle, Waiters.Enough, Waiters.Runs,
        Waiters.SenderWoken;
      ghost var w := Who().Runs(t);
      Who().ReceiveKeeps(t, entry, Size(), order, priority);
      ReceiverRuns(t, woken);
      // no message: wait or give up
      if entry == 0 {
        if !wait {
          return TimedOut;
        }
        w.WaitKeeps(t, order, priority);
        receivers := Suspend(receivers, t, order, priority);
        return Waiting;
      }
      var value := Get();
      // the place may be what somebody waits for
      w.WakeSenderKeeps(order, priority);
      WakeSender();
      return Done(value);
    }

    /** The timer of a waiting thread runs out: it leaves the list and its call will return an error. */
    method Expire(t: Thread)
      requires Valid() && (t in receivers || t in senders)
      modifies this`receivers, this`senders
      ensures Valid() && Who().Pending() == old(Who()).Pending() - {t}
      ensures receivers == Without(old(receivers), t) && senders == Without(old(senders), t)
    {
      hide Waiters.Pending, RemoveAt, Without, Sorted;
      if t in receivers {
        var i :| 0 <= i < |receivers| && receivers[i] == t;
        Who().LeavingKeeps(t, i, order, priority);
        receivers := RemoveAt(receivers, i);
      } else {
        var i :| 0 <= i < |senders| && senders[i] == t;
        Who().LeavingKeeps(t, i, order, priority);
        senders := RemoveAt(senders, i);
      }
    }

    /** rt_mb_control with the reset command: everybody who waits is resumed with an error. */
    method Reset()
      requires Valid()
      modifies this`entry, this`inOffset, this`outOffset, this`receivers, this`senders
      ensures Valid() && Messages() == [] && receivers == [] && senders == []
      ensures Who().Pending() == old(Who()).Pending() - (Members(old(receivers)) + Members(old(senders)))
    {
      hide Waiters.Fine, Waiters.Pending, Members;
      Who().EmptyingKeeps(order, priority);
      receivers, senders := [], [];
      entry, inOffset, outOffset := 0, 0, 0;
    }

    /** What an event will show of the mailbox, if it can happen. */
    ghost function Foreseen(e: Event): seq<Happening>
      requires InRing()
      reads this, pool
    {
      match e
      case Sends(t, value, wait) => if Who().Idle(t) then Sending(t, value, wait) else []
      case SendsAgain(t, value, wait) => if t in wokenSenders then Sending(t, value, wait) else []
      case Receives(t, wait) => if Who().Idle(t) then Receiving(t, wait) else []
      case ReceivesAgain(t, wait) => if t in wokenReceivers then Receiving(t, wait) else []
      case Expires(t) => if t in receivers || t in senders then [GivesUp(t)] else []
      case Resets => [AllFail(Members(receivers) + Members(senders))]
    }

    ghost function Sending(t: Thread, value: nat, wait: bool): seq<Happening>
      requires InRing()
      reads this, pool
    {
      if |Messages()| < Size() then [Sent(t, value)] else if wait then [Waits(t)] else [GivesUp(t)]
    }

    ghost function Receiving(t: Thread, wait: bool): seq<Happening>
      requires InRing()
      reads this, pool
    {
      if Messages() != [] then [Received(t, Messages()[0])] else if wait then [Waits(t)] else [GivesUp(t)]
    }

    /** One event. A message sent wakes the first receiver, a message received the first sender. */
    method Step(e: Event) returns (ghost seen: seq<Happening>)
      requires Valid()
      modifies this, pool
      ensures Valid() && seen == old(Foreseen(e)) && |seen| <= 1
      ensures Now() == Next(old(Now()), e, Size(), order, priority)
      ensures seen == [] ==> Messages() == old(Messages()) && Who() == old(Who())
      ensures seen != [] ==> Messages() == QueueAfter(old(Messages()), seen[0])
      ensures seen != [] ==> Who().Pending() == CallsAfter(old(Who()).Pending(), seen[0])
      ensures seen != [] && seen[0].Received? ==> old(Messages()) != [] && seen[0].value == old(Messages())[0]
      ensures seen != [] && seen[0].Sent? && old(receivers) != [] ==> old(receivers)[0] in wokenReceivers
      ensures seen != [] && seen[0].Received? && old(senders) != [] ==> old(senders)[0] in wokenSenders
    {
      hide Messages, InRing, Waiters.Enough, Waiters.Fine, Waiters.Idle, Waiters.Pending, Waiters.WithSender, Waiters.WithReceiver;
      seen := Foreseen(e);
      match e
      case Sends(t, value, wait) => if Who().Idle(t) { var r := Send(t, value, false, wait); }
      case SendsAgain(t, value, wait) => if t in wokenSenders { var r := Send(t, value, true, wait); }
      case Receives(t, wait) => if Who().Idle(t) { var r := Receive(t, false, wait); }
      case ReceivesAgain(t, wait) => if t in wokenReceivers { var r := Receive(t, true, wait); }
      case Expires(t) => if t in receivers || t in senders { Expire(t); } else { NobodyLeaves(t); }
      case Resets => Reset();
    }

    lemma NobodyLeaves(t: Thread)
      requires t !in receivers && t !in senders
      ensures Who().Left(t) == Who()
    {
      WithoutNone(receivers, t);
      WithoutNone(senders, t);
    }

    /** Any events in any order: no wakeup is lost; every thread whose call began and is not over waits in exactly one
        list, or was woken and will run; messages are received in the order in which they were sent. */
    method Run(events: seq<Event>) returns (ghost seen: seq<Happening>)
      requires Valid()
      modifies this, pool
      ensures Valid() && Who().Apart() && Who().InTurn(order, priority)
      ensures Now() == After(old(Now()), events, Size(), order, priority)
      ensures Who().Pending() == Calls(old(Who()).Pending(), seen)
      ensures Messages() == Queue(old(Messages()), seen) && InOrder(old(Messages()), seen)
      ensures receivers != [] ==> |Messages()| <= |wokenReceivers|
      ensures senders != [] ==> Size() - |Messages()| <= |wokenSenders|
    {
      hide Waiters.Apart, Waiters.InTurn, Waiters.Pending, FromRing, Wrap, Messages, Foreseen, Next;
      seen := [];
      ghost var s, q, c := Now(), Messages(), Who().Pending();
      for i := 0 to |events|
        invariant Valid() && Who().Pending() == Calls(c, seen)
        invariant Now() == After(s, events[..i], Size(), order, priority)
        invariant Messages() == Queue(q, seen) && InOrder(q, seen)
      {
        ghost var more := Step(events[i]);
        AfterOne(s, events[..i], events[i], Size(), order, priority);
        assert events[..i] + [events[i]] == events[..i + 1];
        if more != [] {
          OneMore(q, c, seen, more[0]);
          seen := seen + [more[0]];
        }
      }
      assert events[..|events|] == events;
    }
  }

  datatype Event =
    | Sends(t: Thread, value: nat, wait: bool) | SendsAgain(t: Thread, value: nat, wait: bool)
    | Receives(t: Thread, wait: bool) | ReceivesAgain(t: Thread, wait: bool) | Expires(t: Thread) | Resets

  /** What a mailbox shows of itself: a message sent or received, a call that begins or goes on to wait, a call that ends
      without a message, and a reset that ends the calls of all who wait. */
  datatype Happening =
    | Sent(t: Thread, value: nat) | Received(t: Thread, value: nat) | Waits(t: Thread) | GivesUp(t: Thread)
    | AllFail(failed: set<Thread>)

  function QueueAfter(q: seq<nat>, h: Happening): seq<nat> {
    match h
    case Sent(_, value) => q + [value]
    case Received(_, _) => if q == [] then [] else q[1..]
    case AllFail(_) => []
    case _ => q
  }

  function CallsAfter(c: set<Thread>, h: Happening): set<Thread> {
    match h
    case Waits(t) => c + {t}
    case AllFail(failed) => c - failed
    case _ => c - {h.t}
  }

  /** The messages that wait after all of this, and the threads whose calls are not over. */
  function Queue(q: seq<nat>, seen: seq<Happening>): seq<nat> {
    if seen == [] then q else QueueAfter(Queue(q, Front(seen)), Last(seen))
  }

  function Calls(c: set<Thread>, seen: seq<Happening>): set<Thread> {
    if seen == [] then c else CallsAfter(Calls(c, Front(seen)), Last(seen))
  }

  /** Whatever is received is the oldest message at that time. */
  ghost predicate InOrder(q: seq<nat>, seen: seq<Happening>) {
    seen == []
    || (InOrder(q, Front(seen))
        && (Last(seen).Received? ==> Queue(q, Front(seen)) != [] && Last(seen).value == Queue(q, Front(seen))[0]))
  }

  lemma OneMore(q: seq<nat>, c: set<Thread>, seen: seq<Happening>, h: Happening)
    ensures Queue(q, seen + [h]) == QueueAfter(Queue(q, seen), h) && Calls(c, seen + [h]) == CallsAfter(Calls(c, seen), h)
    ensures InOrder(q, seen + [h]) <==>
              InOrder(q, seen) && (h.Received? ==> Queue(q, seen) != [] && h.value == Queue(q, seen)[0])
  {
    Snoc(seen, h);
  }

  lemma DistinctRest(s: seq<Thread>)
    requires Distinct(s) && s != []
    ensures Distinct(s[1..]) && s[0] !in s[1..]
  {
    forall i, k | 0 <= i < k < |s[1..]|
      ensures s[1..][i] != s[1..][k]
    {
      assert s[i + 1] != s[k + 1];
    }
  }

  function Wrap(i: nat, size: nat): nat { if i >= size then i - size else i }

  function FromRing(ring: seq<nat>, o: nat, n: nat): (r: seq<nat>)
    requires o < |ring| && n <= |ring|
    ensures |r| == n && forall i :: 0 <= i < n ==> r[i] == ring[Wrap(o + i, |ring|)]
  {
    seq(n, i requires 0 <= i < n => ring[Wrap(o + i, |ring|)])
  }

  lemma RingPut(ring: seq<nat>, o: nat, n: nat, value: nat)
    requires o < |ring| && n < |ring|
    ensures FromRing(ring[Wrap(o + n, |ring|) := value], o, n + 1) == FromRing(ring, o, n) + [value]
  {
    var r, s := FromRing(ring[Wrap(o + n, |ring|) := value], o, n + 1), FromRing(ring, o, n) + [value];
    forall i | 0 <= i <= n
      ensures r[i] == s[i]
    {
    }
  }

  lemma RingGet(ring: seq<nat>, o: nat, n: nat)
    requires o < |ring| && 0 < n <= |ring|
    ensures FromRing(ring, o, n) == [ring[o]] + FromRing(ring, Wrap(o + 1, |ring|), n - 1)
  {
    var r, s := FromRing(ring, o, n), [ring[o]] + FromRing(ring, Wrap(o + 1, |ring|), n - 1);
    forall i | 0 <= i < n
      ensures r[i] == s[i]
    {
      if i > 0 { assert Wrap(Wrap(o + 1, |ring|) + (i - 1), |ring|) == Wrap(o + i, |ring|); }
    }
  }
}
