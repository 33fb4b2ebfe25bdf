/** rt_mq: messages in nodes of a fixed pool, moved by senders and receivers in two critical sections each. */
module MessageQueue {
  import opened Words
  import opened Sequences
  import opened Rings

  const NULL := 0

  /** The nodes of `s` are linked in this order from `first` on, the last one to nothing. */
  ghost predicate Chain(first: nat, s: seq<nat>, next: Links) {
    && Distinct(s) && NULL !in s && (forall x :: x in s ==> x in next)
    && first == (if s == [] then NULL else s[0])
    && (forall i :: 0 <= i < |s| - 1 ==> Points(next, s, i))
    && (s != [] ==> next[Last(s)] == NULL)
  }

  ghost predicate Points(next: Links, s: seq<nat>, i: nat)
    requires i + 1 < |s|
  {
    s[i] in next && next[s[i]] == s[i + 1]
  }

  lemma ChainPush(first: nat, s: seq<nat>, next: Links, x: nat)
    requires Chain(first, s, next) && x !in s && x != NULL
    ensures Chain(x, [x] + s, next[x := first])
  {
    var r, next' := [x] + s, next[x := first];
    forall i | 0 <= i < |r| - 1
      ensures Points(next', r, i)
    {
      if i > 0 { assert Points(next, s, i - 1); }
    }
    DistinctPush(s, x);
  }

  lemma DistinctPush(s: seq<nat>, x: nat)
    requires Distinct(s) && x !in s
    ensures Distinct([x] + s) && Distinct(s + [x])
  {
  }

  lemma ChainPop(first: nat, s: seq<nat>, next: Links)
    requires Chain(first, s, next) && s != []
    ensures first == s[0] && first in next && first !in s[1..]
    ensures Chain(next[first], s[1..], next)
    ensures forall x :: x in s[1..] <==> x in s && x != first
    ensures next[first] == NULL <==> |s| == 1
  {
    var r := s[1..];
    if |s| > 1 { assert Points(next, s, 0); }
    forall i | 0 <= i < |r| - 1
      ensures Points(next, r, i)
    {
      assert Points(next, s, i + 1);
    }
  }

  lemma ChainAppend(first: nat, s: seq<nat>, next: Links, x: nat)
    requires Chain(first, s, next) && x !in s && x != NULL && x in next && next[x] == NULL
    ensures s == [] ==> Chain(x, [x], next)
    ensures s != [] ==> Chain(first, s + [x], next[Last(s) := x])
  {
    if s != [] {
      var r, next' := s + [x], next[Last(s) := x];
      DistinctPush(s, x);
      forall i | 0 <= i < |r| - 1
        ensures Points(next', r, i)
      {
        if i < |s| - 1 {
          assert Points(next, s, i);
          assert s[i] != Last(s);
        }
      }
    }
  }

  lemma ChainFrame(first: nat, s: seq<nat>, next: Links, next': Links)
    requires Chain(first, s, next)
    requires forall x :: x in s ==> x in next' && x in next && next'[x] == next[x]
    ensures Chain(first, s, next')
  {
    forall i | 0 <= i < |s| - 1
      ensures Points(next', s, i)
    {
      assert Points(next, s, i);
    }
  }

  // ---------------------------------------------------------------- the queue and the threads that use it

  /** Sending and urgent threads first fill their node, then link it. */
  datatype Kind = Send | Urgent | SendFilled | UrgentFilled | Receive

  /** A thread between its two critical sections: the node it holds, and the message that goes into it or came out. */
  datatype Hand = Hand(node: nat, kind: Kind, msg: seq<byte>)

  type Hands = map<nat, Hand>

  ghost function Held(hands: Hands): set<nat> {
    set t | t in hands :: hands[t].node
  }

  /** No two threads hold the same node. */
  ghost predicate Apart(hands: Hands) {
    forall t, u :: t in hands && u in hands && t != u ==> hands[t].node != hands[u].node
  }

  lemma HeldMore(hands: Hands, t: nat, h: Hand)
    requires t !in hands && Apart(hands) && h.node !in Held(hands)
    ensures Held(hands[t := h]) == Held(hands) + {h.node} && Apart(hands[t := h])
  {
    var hands' := hands[t := h];
    assert hands'[t].node in Held(hands');
    forall u | u in hands
      ensures hands'[u] == hands[u] && hands'[u].node in Held(hands')
    {
    }
  }

  lemma HeldLess(hands: Hands, t: nat)
    requires t in hands && Apart(hands)
    ensures Held(hands - {t}) == Held(hands) - {hands[t].node} && Apart(hands - {t})
  {
    var hands' := hands - {t};
    forall n | n in Held(hands) && n != hands[t].node
      ensures n in Held(hands')
    {
      var u :| u in hands && hands[u].node == n;
      assert u in hands';
    }
  }

  ghost function Members(s: seq<nat>): set<nat> {
    set x | x in s
  }

  /** What lies in the nodes of a list, in order. */
  function Stored(s: seq<nat>, data: map<nat, seq<byte>>): seq<seq<byte>> {
    if s == [] then [] else Stored(Front(s), data) + [if Last(s) in data then data[Last(s)] else []]
  }

  lemma {:induction false} StoredPush(s: seq<nat>, data: map<nat, seq<byte>>, x: nat)
    requires x in data
    ensures Stored([x] + s, data) == [data[x]] + Stored(s, data)
  {
    if s == [] {
      assert Front([x] + s) == [];
    } else {
      assert Front([x] + s) == [x] + Front(s);
      StoredPush(Front(s), data, x);
      Assoc([data[x]], Stored(Front(s), data), [if Last(s) in data then data[Last(s)] else []]);
    }
  }

  lemma StoredAppend(s: seq<nat>, data: map<nat, seq<byte>>, x: nat)
    requires x in data
    ensures Stored(s + [x], data) == Stored(s, data) + [data[x]]
  {
    Snoc(s, x);
  }

  lemma {:induction false} StoredFrame(s: seq<nat>, data: map<nat, seq<byte>>, x: nat, d: seq<byte>)
    requires x !in s
    ensures Stored(s, data[x := d]) == Stored(s, data)
  {
    if s != [] {
      assert Last(s) in s && forall y :: y in Front(s) ==> y in s;
      StoredFrame(Front(s), data, x, d);
    }
  }

  lemma StoredPop(s: seq<nat>, data: map<nat, seq<byte>>)
    requires s != [] && s[0] in data
    ensures Stored(s, data) == [data[s[0]]] + Stored(s[1..], data)
  {
    assert s == [s[0]] + s[1..];
    StoredPush(s[1..], data, s[0]);
  }

  // ---------------------------------------------------------------- the invariant, in three parts

  /** Every node is in exactly one place: on the queue, on the free list, or in one thread's hand. */
  ghost predicate Partition(pool: set<nat>, queued: seq<nat>, freed: seq<nat>, hands: Hands) {
    && Apart(hands) && NULL !in pool
    && pool == Members(queued) + Members(freed) + Held(hands)
    && Members(queued) !! Members(freed) && Members(queued) !! Held(hands) && Members(freed) !! Held(hands)
  }

  /** Head, tail and count describe the queue, the free pointer the free list. */
  ghost predicate Lists(head: nat, tail: nat, free: nat, entry: nat, queued: seq<nat>, freed: seq<nat>, next: Links) {
    && Chain(head, queued, next) && Chain(free, freed, next)
    && tail == (if queued == [] then NULL else Last(queued)) && entry == |queued|
  }

  /** A filled node carries its sender's message, a received one the message that was taken. */
  ghost predicate InHand(h: Hand, next: Links, data: map<nat, seq<byte>>) {
    match h.kind
    case Send | Urgent => true
    case SendFilled => h.node in next && next[h.node] == NULL && Carries(h, data)
    case UrgentFilled => Carries(h, data)
    case Receive => h.node in data && data[h.node] == h.msg
  }

  ghost predicate Carries(h: Hand, data: map<nat, seq<byte>>) {
    h.node in data && |h.msg| <= |data[h.node]| && data[h.node][..|h.msg|] == h.msg
  }

  ghost predicate AllInHand(hands: Hands, next: Links, data: map<nat, seq<byte>>) {
    forall t :: t in hands ==> InHand(hands[t], next, data)
  }

  lemma FreedToHand(pool: set<nat>, queued: seq<nat>, freed: seq<nat>, hands: Hands, t: nat, h: Hand)
    requires Partition(pool, queued, freed, hands) && t !in hands && freed != [] && h.node == freed[0] && freed[0] !in freed[1..]
    ensures Partition(pool, queued, freed[1..], hands[t := h])
  {
    hide Held, Apart;
    PopMembers(freed);
    HeldMore(hands, t, h);
  }

  lemma QueuedToHand(pool: set<nat>, queued: seq<nat>, freed: seq<nat>, hands: Hands, t: nat, h: Hand)
    requires Partition(pool, queued, freed, hands) && t !in hands && queued != [] && h.node == queued[0] && queued[0] !in queued[1..]
    ensures Partition(pool, queued[1..], freed, hands[t := h])
  {
    hide Held, Apart;
    PopMembers(queued);
    HeldMore(hands, t, h);
  }

  /** What a thread holds is on no list and in no other hand. */
  lemma HeldElsewhere(pool: set<nat>, queued: seq<nat>, freed: seq<nat>, hands: Hands, t: nat)
    requires Partition(pool, queued, freed, hands) && t in hands
    ensures var n := hands[t].node;
            n in Held(hands) && n != NULL && n in pool && n !in queued && n !in freed
    ensures forall x :: x in queued ==> x in pool && x !in freed
    ensures forall u :: u in hands ==> hands[u].node !in queued && hands[u].node !in freed
  {
    assert hands[t].node in Held(hands);
    forall u | u in hands
      ensures hands[u].node !in queued && hands[u].node !in freed
    {
      assert hands[u].node in Held(hands);
    }
    forall x | x in queued
      ensures x in pool && x !in freed
    {
      assert x in Members(queued);
    }
  }

  lemma HandToQueue(pool: set<nat>, queued: seq<nat>, freed: seq<nat>, hands: Hands, t: nat)
    requires Partition(pool, queued, freed, hands) && t in hands
    ensures Partition(pool, queued + [hands[t].node], freed, hands - {t})
    ensures Partition(pool, [hands[t].node] + queued, freed, hands - {t})
  {
    hide Held, Apart, Members;
    HeldElsewhere(pool, queued, freed, hands, t);
    AppendMembers(queued, hands[t].node);
    PushMembers(queued, hands[t].node);
    NotMember(queued, hands[t].node);
    NotMember(freed, hands[t].node);
    HeldLess(hands, t);
  }

  lemma HandToFreed(pool: set<nat>, queued: seq<nat>, freed: seq<nat>, hands: Hands, t: nat)
    requires Partition(pool, queued, freed, hands) && t in hands
    ensures Partition(pool, queued, [hands[t].node] + freed, hands - {t})
  {
    hide Held, Apart, Members;
    HeldElsewhere(pool, queued, freed, hands, t);
    PushMembers(freed, hands[t].node);
    NotMember(queued, hands[t].node);
    NotMember(freed, hands[t].node);
    HeldLess(hands, t);
  }

  lemma NotMember(s: seq<nat>, x: nat)
    ensures x in Members(s) <==> x in s
  {
  }

  lemma HandChanged(pool: set<nat>, queued: seq<nat>, freed: seq<nat>, hands: Hands, t: nat, h: Hand)
    requires Partition(pool, queued, freed, hands) && t in hands && h.node == hands[t].node
    ensures Partition(pool, queued, freed, hands[t := h])
  {
    hide Held, Apart, Members;
    HeldSame(hands, t, h);
  }

  lemma ListsKept(head: nat, tail: nat, free: nat, entry: nat, queued: seq<nat>, freed: seq<nat>, next: Links, x: nat, v: nat)
    requires Lists(head, tail, free, entry, queued, freed, next) && x !in queued && x !in freed
    ensures Lists(head, tail, free, entry, queued, freed, next[x := v])
  {
    ChainKnows(head, queued, next);
    ChainKnows(free, freed, next);
    ChainFrame(head, queued, next, next[x := v]);
    ChainFrame(free, freed, next, next[x := v]);
  }

  lemma ChainKnows(first: nat, s: seq<nat>, next: Links)
    requires Chain(first, s, next)
    ensures forall x :: x in s ==> x in next
  {
  }

  lemma ListsAppend(head: nat, tail: nat, free: nat, entry: nat, queued: seq<nat>, freed: seq<nat>, next: Links, x: nat)
    requires Lists(head, tail, free, entry, queued, freed, next) && x !in queued && x !in freed && x != NULL
    requires x in next && next[x] == NULL && forall y :: y in queued ==> y !in freed
    ensures Lists(if head == NULL then x else head, x, free, entry + 1, queued + [x], freed,
                  if tail != NULL then next[tail := x] else next)
  {
    hide Chain;
    FirstOf(head, queued, next);
    ChainKnows(free, freed, next);
    ChainAppend(head, queued, next, x);
    if queued != [] {
      ChainFrame(free, freed, next, next[Last(queued) := x]);
      LastNotNull(head, queued, next);
    } else {
      assert queued + [x] == [x];
    }
  }

  lemma LastNotNull(first: nat, s: seq<nat>, next: Links)
    requires Chain(first, s, next) && s != []
    ensures Last(s) != NULL
  {
  }

  lemma ListsPush(head: nat, tail: nat, free: nat, entry: nat, queued: seq<nat>, freed: seq<nat>, next: Links, x: nat)
    requires Lists(head, tail, free, entry, queued, freed, next) && x !in queued && x !in freed && x != NULL
    ensures Lists(x, if tail == NULL then x else tail, free, entry + 1, [x] + queued, freed, next[x := head])
  {
    hide Chain;
    ChainKnows(free, freed, next);
    ChainPush(head, queued, next, x);
    ChainFrame(free, freed, next, next[x := head]);
    if queued != [] { LastNotNull(head, queued, next); }
  }

  lemma ListsPop(head: nat, tail: nat, free: nat, entry: nat, queued: seq<nat>, freed: seq<nat>, next: Links)
    requires Lists(head, tail, free, entry, queued, freed, next) && queued != []
    ensures head == queued[0] && head !in queued[1..] && head in next && entry > 0
    ensures Lists(next[head], if tail == head then NULL else tail, free, entry - 1, queued[1..], freed, next)
  {
    hide Chain;
    ChainPop(head, queued, next);
    LastOfPop(queued);
  }

  lemma ListsPushFree(head: nat, tail: nat, free: nat, entry: nat, queued: seq<nat>, freed: seq<nat>, next: Links, x: nat)
    requires Lists(head, tail, free, entry, queued, freed, next) && x !in queued && x !in freed && x != NULL
    ensures Lists(head, tail, x, entry, queued, [x] + freed, next[x := free])
  {
    hide Chain;
    ChainKnows(head, queued, next);
    ChainPush(free, freed, next, x);
    ChainFrame(head, queued, next, next[x := free]);
  }

  lemma ListsPopFree(head: nat, tail: nat, free: nat, entry: nat, queued: seq<nat>, freed: seq<nat>, next: Links)
    requires Lists(head, tail, free, entry, queued, freed, next) && freed != []
    ensures free == freed[0] && free !in freed[1..] && free in next
    ensures Lists(head, tail, next[free], entry, queued, freed[1..], next)
  {
    hide Chain;
    ChainPop(free, freed, next);
  }

  lemma EmptyLists(head: nat, tail: nat, free: nat, entry: nat, queued: seq<nat>, freed: seq<nat>, next: Links)
    requires Lists(head, tail, free, entry, queued, freed, next)
    ensures (head == NULL <==> queued == []) && (tail == NULL <==> queued == []) && (free == NULL <==> freed == [])
    ensures entry == |queued|
  {
    hide Chain;
    FirstOf(head, queued, next);
    FirstOf(free, freed, next);
    if queued != [] { LastNotNull(head, queued, next); }
  }

  class Queue {
    const msgSize: nat
    var head: nat
    var tail: nat
    var free: nat
    var entry: nat
    var next: Links
    var data: map<nat, seq<byte>>
    /** The local variables of every thread that is between its critical sections. */
    var hands: Hands

    ghost var pool: set<nat>
    ghost var queued: seq<nat>
    ghost var freed: seq<nat>

    ghost predicate Valid()
      reads this
    {
      && Partition(pool, queued, freed, hands)
      && Lists(head, tail, free, entry, queued, freed, next)
      && (forall n :: n in pool ==> n in data && |data[n]| == msgSize)
      && AllInHand(hands, next, data)
    }

    /** The messages waiting, in delivery order. */
    ghost function Messages(): seq<seq<byte>>
      reads this
    {
      Stored(queued, data)
    }

    /** rt_mq_init: all nodes on the free list. */
    constructor (nodes: seq<nat>, msgSize: nat)
      requires Distinct(nodes) && NULL !in nodes
      ensures Valid() && this.msgSize == msgSize && pool == Members(nodes) && queued == [] && hands == map[]
    {
      this.msgSize := msgSize;
      head, tail, free, entry := NULL, NULL, NULL, 0;
      next, hands := map[], map[];
      data := map n | n in nodes :: seq(msgSize, _ => 0);
      pool, queued, freed := Members(nodes), [], [];
      new;
      hide Chain, Distinct, Lists;
      NothingListed(next);
      for i := 0 to |nodes|
        invariant Lists(head, tail, free, entry, queued, freed, next) && (forall x :: x in freed <==> x in nodes[..i])
        invariant queued == [] && hands == map[] && pool == Members(nodes)
        invariant data == map n | n in nodes :: seq(msgSize, _ => 0)
      {
        NotBefore(nodes, i);
        ListsPushFree(head, tail, free, entry, queued, freed, next, nodes[i]);
        next := next[nodes[i] := free];
        free := nodes[i];
        freed := [nodes[i]] + freed;
      }
      assert nodes[..|nodes|] == nodes;
      NothingHeld(pool, freed);
    }

    /** First critical section of rt_mq_send and rt_mq_urgent. */
    method TakeFree(t: nat, urgent: bool) returns (ok: bool)
      requires Valid() && t !in hands
      modifies `free, `hands, `freed
      ensures Valid() && ok == (old(freed) != [])
      ensures !ok ==> hands == old(hands)
      ensures ok ==> hands == old(hands)[t := Hand(old(freed)[0], if urgent then Urgent else Send, [])]
    {
      hide Lists, Partition;
      EmptyLists(head, tail, free, entry, queued, freed, next);
      if free == NULL {
        return false;
      }
      ListsPopFree(head, tail, free, entry, queued, freed, next);
      var msg := free;
      var h := Hand(msg, if urgent then Urgent else Send, []);
      FreedToHand(pool, queued, freed, hands, t, h);
      free := next[msg];
      freed := freed[1..];
      hands := hands[t := h];
      return true;
    }

    /** Between the critical sections: the sender copies its message into the node. */
    method Fill(t: nat, buffer: seq<byte>)
      requires Valid() && t in hands && (hands[t].kind == Send || hands[t].kind == Urgent) && |buffer| <= msgSize
      modifies `next, `data, `hands
      ensures Valid() && Messages() == old(Messages())
      ensures hands == old(hands)[t := Hand(old(hands)[t].node, if old(hands)[t].kind == Send then SendFilled else UrgentFilled, buffer)]
    {
      hide Lists, Partition, Stored, Held;
      var msg := hands[t].node;
      HeldElsewhere(pool, queued, freed, hands, t);
      PartitionApart(pool, queued, freed, hands);
      ghost var next0 := next;
      ListsKept(head, tail, free, entry, queued, freed, next, msg, NULL);
      if hands[t].kind == Send {
        // a message at the back links to nothing
        next := next[msg := NULL];
      }
      var bytes := buffer + data[msg][|buffer|..];
      StoredFrame(queued, data, msg, bytes);
      var h := Hand(msg, if hands[t].kind == Send then SendFilled else UrgentFilled, buffer);
      HandChanged(pool, queued, freed, hands, t, h);
      OthersFilled(hands, next0, next, data, t, h, bytes);
      data := data[msg := bytes];
      hands := hands[t := h];
    }

    /** Second critical section of rt_mq_send. */
    method LinkTail(t: nat)
      requires Valid() && t in hands && hands[t].kind == SendFilled
      modifies `next, `head, `tail, `entry, `hands, `queued
      ensures Valid() && hands == old(hands) - {t}
      ensures Carries(old(hands)[t], data) && Messages() == old(Messages()) + [data[old(hands)[t].node]]
    {
      hide Lists, Partition, Stored, Held;
      var msg := hands[t].node;
      assert InHand(hands[t], next, data);
      HeldElsewhere(pool, queued, freed, hands, t);
      EmptyLists(head, tail, free, entry, queued, freed, next);
      ListsAppend(head, tail, free, entry, queued, freed, next, msg);
      HandToQueue(pool, queued, freed, hands, t);
      StoredAppend(queued, data, msg);
      TailIsQueued(head, tail, free, entry, queued, freed, next);
      OthersKept(hands, next, data, t, tail, msg);
      if tail != NULL {
        // behind the last message, if there is one
        next := next[tail := msg];
      }
      tail := msg;
      // an only message is the first as well
      if head == NULL {
        head := msg;
      }
      entry := entry + 1;
      queued := queued + [msg];
      hands := hands - {t};
    }

    /** Second critical section of rt_mq_urgent. */
    method LinkHead(t: nat)
      requires Valid() && t in hands && hands[t].kind == UrgentFilled
      modifies `next, `head, `tail, `entry, `hands, `queued
      ensures Valid() && hands == old(hands) - {t}
      ensures Carries(old(hands)[t], data) && Messages() == [data[old(hands)[t].node]] + old(Messages())
    {
      hide Lists, Partition, Stored, Held;
      var msg := hands[t].node;
      assert InHand(hands[t], next, data);
      HeldElsewhere(pool, queued, freed, hands, t);
      PartitionApart(pool, queued, freed, hands);
      ListsPush(head, tail, free, entry, queued, freed, next, msg);
      HandToQueue(pool, queued, freed, hands, t);
      StoredPush(queued, data, msg);
      OthersRelinked(hands, next, data, t, head);
      // in front of the first message
      next := next[msg := head];
      head := msg;
      // an only message is the last as well
      if tail == NULL {
        tail := msg;
      }
      entry := entry + 1;
      queued := [msg] + queued;
      hands := hands - {t};
    }

    /** First critical section of rt_mq_recv, once there is a message. */
    method TakeHead(t: nat) returns (ok: bool)
      requires Valid() && t !in hands
      modifies `head, `tail, `entry, `hands, `queued
      ensures Valid() && ok == (old(Messages()) != [])
      ensures !ok ==> hands == old(hands) && Messages() == old(Messages())
      ensures ok ==> t in hands && old(Messages()) == [hands[t].msg] + Messages()
      ensures ok ==> hands == old(hands)[t := Hand(old(head), Receive, hands[t].msg)]
    {
      hide Lists, Partition, Held, Stored;
      EmptyLists(head, tail, free, entry, queued, freed, next);
      StoredSize(queued, data);
      if entry == 0 {
        return false;
      }
      ListsPop(head, tail, free, entry, queued, freed, next);
      QueuedInPool(pool, queued, freed, hands);
      var msg := head;
      StoredPop(queued, data);
      var h := Hand(msg, Receive, data[msg]);
      QueuedToHand(pool, queued, freed, hands, t, h);
      head := next[msg];
      // the last message leaves nothing at the back
      if tail == msg {
        tail := NULL;
      }
      entry := entry - 1;
      queued := queued[1..];
      hands := hands[t := h];
      return true;
    }

    /** Between the critical sections: the receiver copies the message out, cut to its buffer. */
    method CopyOut(t: nat, size: nat) returns (buffer: seq<byte>)
      requires Valid() && t in hands && hands[t].kind == Receive
      ensures |hands[t].msg| == msgSize && buffer == hands[t].msg[..if size > msgSize then msgSize else size]
    {
      hide Lists, Partition, Held;
      HeldElsewhere(pool, queued, freed, hands, t);
      assert InHand(hands[t], next, data);
      buffer := data[hands[t].node][..if size > msgSize then msgSize else size];
    }

    /** Second critical section of rt_mq_recv. */
    method GiveBack(t: nat)
      requires Valid() && t in hands && hands[t].kind == Receive
      modifies `next, `free, `hands, `freed
      ensures Valid() && hands == old(hands) - {t} && Messages() == old(Messages())
    {
      hide Lists, Partition, Held, Stored;
      var msg := hands[t].node;
      HeldElsewhere(pool, queued, freed, hands, t);
      PartitionApart(pool, queued, freed, hands);
      ListsPushFree(head, tail, free, entry, queued, freed, next, msg);
      HandToFreed(pool, queued, freed, hands, t);
      OthersRelinked(hands, next, data, t, free);
      next := next[msg := free];
      free := msg;
      freed := [msg] + freed;
      hands := hands - {t};
    }

    /** rt_mq_control with the reset command: all waiting messages go back to the free list; nodes in hand stay there. */
    method Reset()
      requires Valid()
      modifies `head, `tail, `free, `entry, `next, `queued, `freed
      ensures Valid() && Messages() == [] && entry == 0
    {
      hide Lists, Partition, Held;
      EmptyLists(head, tail, free, entry, queued, freed, next);
      ghost var n := entry;
      while head != NULL
        invariant Lists(head, tail, free, n, queued, freed, next) && Partition(pool, queued, freed, hands)
        invariant AllInHand(hands, next, data) && (head == NULL <==> queued == []) && n == |queued|
        decreases |queued|
      {
        ListsPop(head, tail, free, n, queued, freed, next);
        QueuedToFreed(pool, queued, freed, hands);
        OthersKeptByReset(hands, next, data, head, free);
        var msg := head;
        ghost var rest := queued[1..];
        head := next[msg];
        // the last message leaves nothing at the back
        if tail == msg {
          tail := NULL;
        }
        ListsPushFree(head, tail, free, n - 1, rest, freed, next, msg);
        // its node is free at once, in no hand in between
        next := next[msg := free];
        free := msg;
        queued, freed, n := rest, [msg] + freed, n - 1;
        EmptyLists(head, tail, free, n, queued, freed, next);
      }
      entry := 0;
    }

    /** One critical section, or the copying between two, of the thread that comes next; nothing if it cannot go on. */
    method Step(a: Action) returns (ghost seen: seq<Happening>)
      requires Valid() && (a.FillNode? ==> |a.buffer| <= msgSize)
      modifies this
      ensures Valid() && pool == old(pool)
      ensures Ordered(old(Messages()), seen) && Messages() == After(old(Messages()), seen)
      ensures a.Link? && a.t in old(hands) && old(hands)[a.t].kind == SendFilled ==>
                |seen| == 1 && seen[0].Linked? && !seen[0].urgent && seen[0].sent == old(hands)[a.t].msg
      ensures a.Link? && a.t in old(hands) && old(hands)[a.t].kind == UrgentFilled ==>
                |seen| == 1 && seen[0].Linked? && seen[0].urgent && seen[0].sent == old(hands)[a.t].msg
      ensures a.Take? && a.t !in old(hands) && old(Messages()) != [] ==>
                a.t in hands && seen == [Delivered(hands[a.t].msg)]
      ensures a.Clear? ==> seen == [Cleared]
      ensures seen != [] ==> a.Clear? || (a.Link? && a.t in old(hands)) || (a.Take? && a.t !in old(hands))
    {
      hide Partition, Lists, AllInHand, Stored;
      seen := [];
      match a
      case Begin(t, urgent) => if t !in hands { var ok := TakeFree(t, urgent); }
      case FillNode(t, buffer) =>
        if t in hands && (hands[t].kind == Send || hands[t].kind == Urgent) { Fill(t, buffer); }
      case Link(t) =>
        if t in hands && hands[t].kind == SendFilled {
          ghost var h := hands[t];
          LinkTail(t);
          seen := [Linked(false, h.msg, data[h.node])];
        } else if t in hands && hands[t].kind == UrgentFilled {
          ghost var h := hands[t];
          LinkHead(t);
          seen := [Linked(true, h.msg, data[h.node])];
        }
      case Take(t) =>
        if t !in hands {
          var ok := TakeHead(t);
          if ok { seen := [Delivered(hands[t].msg)]; }
        }
      case Return(t) => if t in hands && hands[t].kind == Receive { GiveBack(t); }
      case Clear =>
        Reset();
        seen := [Cleared];
    }

    /** Any number of threads, their critical sections in any order: no node is ever lost or in two places, and messages
        are delivered in the order in which they were linked, urgent ones first. */
    method Run(schedule: seq<Action>) returns (ghost seen: seq<Happening>)
      requires Valid() && forall i :: 0 <= i < |schedule| && schedule[i].FillNode? ==> |schedule[i].buffer| <= msgSize
      modifies this
      ensures Valid() && pool == old(pool)
      ensures Ordered(old(Messages()), seen) && Messages() == After(old(Messages()), seen)
      ensures forall n :: n in pool <==> n in queued || n in freed || exists t :: t in hands && hands[t].node == n
      ensures entry == |queued| && (head == NULL <==> tail == NULL) && (head == NULL <==> entry == 0)
    {
      hide Lists, Partition, AllInHand, Stored, Ordered, After;
      ghost var before := Messages();
      seen := [];
      NothingSeen(before);
      for i := 0 to |schedule|
        invariant Valid() && pool == old(pool)
        invariant Ordered(before, seen) && Messages() == After(before, seen)
      {
        ghost var more := Step(schedule[i]);
        OrderedOn(before, seen, more);
        seen := seen + more;
      }
      Everywhere(pool, queued, freed, hands);
      EmptyLists(head, tail, free, entry, queued, freed, next);
    }
  }

  /** What a queue shows of itself: a message linked at its back, or in front if urgent, with the bytes its node holds; a
      message delivered; a reset. */
  datatype Happening = Linked(urgent: bool, sent: seq<byte>, bytes: seq<byte>) | Delivered(bytes: seq<byte>) | Cleared

  /** The queue as a list of messages, oldest first. */
  function AfterOne(q: seq<seq<byte>>, h: Happening): seq<seq<byte>> {
    match h
    case Linked(urgent, _, bytes) => if urgent then [bytes] + q else q + [bytes]
    case Delivered(_) => if q == [] then [] else q[1..]
    case Cleared => []
  }

  function After(q: seq<seq<byte>>, seen: seq<Happening>): seq<seq<byte>>
    decreases |seen|
  {
    if seen == [] then q else After(AfterOne(q, seen[0]), seen[1..])
  }

  /** What is delivered is the first message at that time; a node begins with what its sender sent. */
  ghost predicate Ordered(q: seq<seq<byte>>, seen: seq<Happening>)
    decreases |seen|
  {
    seen == []
    || ((seen[0].Delivered? ==> q != [] && seen[0].bytes == q[0])
        && (seen[0].Linked? ==> |seen[0].sent| <= |seen[0].bytes| && seen[0].bytes[..|seen[0].sent|] == seen[0].sent)
        && Ordered(AfterOne(q, seen[0]), seen[1..]))
  }

  function Deliveries(seen: seq<Happening>): seq<seq<byte>> {
    if seen == [] then [] else (if seen[0].Delivered? then [seen[0].bytes] else []) + Deliveries(seen[1..])
  }

  function Appended(seen: seq<Happening>): seq<seq<byte>> {
    if seen == [] then [] else (if seen[0].Linked? then [seen[0].bytes] else []) + Appended(seen[1..])
  }

  /** Without urgent messages and resets: what was delivered, and then what waits, is what waited before and then what was
      linked, in that order. */
  lemma {:induction false} FirstInFirstOut(q: seq<seq<byte>>, seen: seq<Happening>)
    requires Ordered(q, seen) && forall i :: 0 <= i < |seen| ==> !seen[i].Cleared? && (seen[i].Linked? ==> !seen[i].urgent)
    ensures Deliveries(seen) + After(q, seen) == q + Appended(seen)
    decreases |seen|
  {
    if seen == [] {
      Neutral(q);
    } else {
      var h, rest := seen[0], seen[1..];
      assert forall i :: 0 <= i < |rest| ==> rest[i] == seen[i + 1];
      FirstInFirstOut(AfterOne(q, h), rest);
      if h.Linked? {
        Assoc(q, [h.bytes], Appended(rest));
        Neutral(Deliveries(rest));
      } else {
        HeadTail(q);
        Assoc([q[0]], q[1..], Appended(rest));
        Assoc([h.bytes], Deliveries(rest), After(q, seen));
        Neutral(Appended(rest));
      }
    }
  }

  lemma NothingSeen(q: seq<seq<byte>>)
    ensures Ordered(q, []) && After(q, []) == q
  {
  }

  lemma {:induction false} OrderedOn(q: seq<seq<byte>>, seen: seq<Happening>, more: seq<Happening>)
    requires Ordered(q, seen) && Ordered(After(q, seen), more)
    ensures Ordered(q, seen + more) && After(q, seen + more) == After(After(q, seen), more)
    decreases |seen|
  {
    if seen == [] {
      Neutral(more);
    } else {
      assert (seen + more)[0] == seen[0] && (seen + more)[1..] == seen[1..] + more;
      OrderedOn(AfterOne(q, seen[0]), seen[1..], more);
    }
  }

  datatype Action =
    | Begin(t: nat, urgent: bool) | FillNode(t: nat, buffer: seq<byte>) | Link(t: nat)
    | Take(t: nat) | Return(t: nat) | Clear

  lemma QueuedToFreed(pool: set<nat>, queued: seq<nat>, freed: seq<nat>, hands: Hands)
    requires Partition(pool, queued, freed, hands) && queued != [] && queued[0] !in queued[1..]
    ensures Partition(pool, queued[1..], [queued[0]] + freed, hands)
    ensures queued[0] !in freed && queued[0] != NULL && forall u :: u in hands ==> hands[u].node != queued[0]
  {
    hide Apart;
    assert queued[0] in Members(queued);
    PopMembers(queued);
    PushMembers(freed, queued[0]);
    forall u | u in hands
      ensures hands[u].node != queued[0]
    {
      assert hands[u].node in Held(hands);
    }
  }

  lemma OthersKeptByReset(hands: Hands, next: Links, data: map<nat, seq<byte>>, x: nat, v: nat)
    requires AllInHand(hands, next, data) && forall u :: u in hands ==> hands[u].node != x
    ensures AllInHand(hands, next[x := v], data)
  {
    var next' := next[x := v];
    forall u | u in hands
      ensures InHand(hands[u], next', data)
    {
      assert InHand(hands[u], next, data);
    }
  }

  lemma Everywhere(pool: set<nat>, queued: seq<nat>, freed: seq<nat>, hands: Hands)
    requires Partition(pool, queued, freed, hands)
    ensures forall n :: n in pool <==> n in queued || n in freed || exists t :: t in hands && hands[t].node == n
  {
    forall n
      ensures n in pool <==> n in queued || n in freed || exists t :: t in hands && hands[t].node == n
    {
      if n in queued { assert n in Members(queued); }
      if n in freed { assert n in Members(freed); }
      if t :| t in hands && hands[t].node == n { assert n in Held(hands); }
    }
  }

  lemma PartitionApart(pool: set<nat>, queued: seq<nat>, freed: seq<nat>, hands: Hands)
    requires Partition(pool, queued, freed, hands)
    ensures Apart(hands)
  {
  }

  lemma QueuedInPool(pool: set<nat>, queued: seq<nat>, freed: seq<nat>, hands: Hands)
    requires Partition(pool, queued, freed, hands)
    ensures forall x :: x in queued ==> x in pool
  {
    forall x | x in queued
      ensures x in pool
    {
      assert x in Members(queued);
    }
  }

  lemma {:induction false} StoredSize(s: seq<nat>, data: map<nat, seq<byte>>)
    ensures |Stored(s, data)| == |s|
  {
    if s != [] { StoredSize(Front(s), data); }
  }

  lemma TailIsQueued(head: nat, tail: nat, free: nat, entry: nat, queued: seq<nat>, freed: seq<nat>, next: Links)
    requires Lists(head, tail, free, entry, queued, freed, next)
    ensures tail != NULL ==> tail in queued
  {
  }

  /** The other threads' nodes are as before when one thread fills its own. */
  lemma OthersFilled(hands: Hands, next0: Links, next: Links, data: map<nat, seq<byte>>, t: nat, h: Hand, bytes: seq<byte>)
    requires AllInHand(hands, next0, data) && Apart(hands) && t in hands && h.node == hands[t].node
    requires next == if h.kind == SendFilled then next0[h.node := NULL] else next0
    requires (h.kind == SendFilled || h.kind == UrgentFilled) && |h.msg| <= |bytes| && bytes[..|h.msg|] == h.msg
    ensures AllInHand(hands[t := h], next, data[h.node := bytes])
  {
    var hands', data' := hands[t := h], data[h.node := bytes];
    forall u | u in hands'
      ensures InHand(hands'[u], next, data')
    {
      if u != t { assert InHand(hands[u], next0, data) && hands[u].node != h.node; }
    }
  }

  /** ... when a node that nobody holds is linked to the one given up, or none is; */
  lemma OthersKept(hands: Hands, next: Links, data: map<nat, seq<byte>>, t: nat, x: nat, v: nat)
    requires AllInHand(hands, next, data) && (x != NULL ==> forall u :: u in hands ==> hands[u].node != x)
    ensures AllInHand(hands - {t}, if x != NULL then next[x := v] else next, data)
  {
    var next' := if x != NULL then next[x := v] else next;
    var hands' := hands - {t};
    forall u | u in hands'
      ensures InHand(hands'[u], next', data)
    {
      assert InHand(hands[u], next, data);
    }
  }

  /** ... and when a thread relinks its node and gives it up. */
  lemma OthersRelinked(hands: Hands, next: Links, data: map<nat, seq<byte>>, t: nat, v: nat)
    requires AllInHand(hands, next, data) && Apart(hands) && t in hands
    ensures AllInHand(hands - {t}, next[hands[t].node := v], data)
  {
    var hands', next' := hands - {t}, next[hands[t].node := v];
    forall u | u in hands'
      ensures InHand(hands'[u], next', data)
    {
      assert InHand(hands[u], next, data) && hands[u].node != hands[t].node;
    }
  }

  lemma NothingListed(next: Links)
    ensures Lists(NULL, NULL, NULL, 0, [], [], next)
  {
  }

  lemma NothingHeld(pool: set<nat>, freed: seq<nat>)
    requires NULL !in pool && forall x :: x in freed <==> x in pool
    ensures Partition(pool, [], freed, map[])
  {
  }

  lemma NotBefore(s: seq<nat>, i: nat)
    requires Distinct(s) && i < |s|
    ensures s[i] !in s[..i] && forall x :: x in s[..i + 1] <==> x in s[..i] || x == s[i]
  {
  }

  lemma HeldSame(hands: Hands, t: nat, h: Hand)
    requires t in hands && Apart(hands) && h.node == hands[t].node
    ensures Held(hands[t := h]) == Held(hands) && Apart(hands[t := h])
  {
    var hands' := hands[t := h];
    forall n | n in Held(hands)
      ensures n in Held(hands')
    {
      var u :| u in hands && hands[u].node == n;
      assert hands'[u].node == n;
    }
  }

  lemma AppendMembers(s: seq<nat>, x: nat)
    ensures Members(s + [x]) == Members(s) + {x}
  {
  }

  lemma PushMembers(s: seq<nat>, x: nat)
    ensures Members([x] + s) == Members(s) + {x}
  {
  }

  lemma LastOfPop(s: seq<nat>)
    requires s != [] && s[0] !in s[1..]
    ensures Last(s) == s[0] <==> |s| == 1
    ensures |s| > 1 ==> Last(s[1..]) == Last(s)
  {
    if |s| > 1 { assert s[1..][|s| - 2] == Last(s); }
  }

  lemma FirstOf(first: nat, s: seq<nat>, next: Links)
    requires Chain(first, s, next)
    ensures first == NULL <==> s == []
    ensures s != [] ==> first == s[0] && first in next
  {
  }

  lemma PopMembers(s: seq<nat>)
    requires s != [] && s[0] !in s[1..]
    ensures Members(s[1..]) == Members(s) - {s[0]} && s[0] in Members(s)
  {
  }
}
