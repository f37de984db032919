/** The bounded multi-producer multi-consumer queue of src/queue.c.

    Every atomic access of `fp_queue_push` and `fp_queue_pop` is one step of a
    state machine over any number of threads: load an index, load a slot's
    sequence number, compare-and-swap an index, touch the slot's data, store
    the sequence number. Accesses are sequentially consistent and positions do
    not wrap. The compare-and-swap may fail spuriously.

    Three history variables, which no step reads, name what the theorems are
    about: `log` is the sequence of successful compare-and-swaps, `pushed` the
    values they claimed positions for, and `popped[k]` the value that the k-th
    claimed pop has read. */
module RingQueue {
  import opened Common

  /** The `void *` payload; 0 is NULL. */
  type Value = nat

  datatype Slot = Slot(seqNo: int, data: Value)

  /** What a thread is about to do; the last access has been performed. */
  datatype Thread =
    | Idle
    | PushLoadTail(v: Value)
    | PushLoadSeq(v: Value, pos: nat)
    | PushCas(v: Value, pos: nat)
    | PushWrite(v: Value, pos: nat)
    | PushPublish(v: Value, pos: nat)
    | PushOk(pos: nat, v: Value)
    | PushFull
    | PopLoadHead
    | PopLoadSeq(pos: nat)
    | PopCas(pos: nat)
    | PopRead(pos: nat)
    | PopRecycle(pos: nat, d: Value)
    | PopOk(pos: nat, d: Value)
    | PopEmpty

  datatype Op = Enq(v: Value) | Deq

  datatype State = State(
    head: nat,
    tail: nat,
    slots: seq<Slot>,
    threads: seq<Thread>,
    log: seq<Op>,
    pushed: seq<Value>,
    popped: seq<Option<Value>>)
  {
    function Capacity(): nat { |slots| }
  }

  function SeqAt(slots: seq<Slot>, p: int): int
    requires 0 < |slots|
  {
    slots[p % |slots|].seqNo
  }

  function DataAt(slots: seq<Slot>, p: int): Value
    requires 0 < |slots|
  {
    slots[p % |slots|].data
  }

  /** Both indices are at 0, slot i is free for position i, and no thread is inside a call. */
  ghost predicate JustCreated(s: State, n: nat) {
    && s.head == s.tail == 0
    && (forall i :: 0 <= i < s.Capacity() ==> s.slots[i].seqNo == i)
    && |s.threads| == n && forall t :: 0 <= t < n ==> s.threads[t] == Idle
  }

  /** `fp_queue_create` followed by the start of n threads. */
  function Init(requested: nat, n: nat): (s: State)
    ensures s.Capacity() >= 1 && (requested >= 1 ==> s.Capacity() == requested)
    ensures JustCreated(s, n)
  {
    var capacity := if requested == 0 then 1 else requested;
    State(0, 0, seq(capacity, i => Slot(i, 0)), seq(n, _ => Idle), [], [], [])
  }

  /** The scheduler's choices. */
  datatype Action =
    | CallPush(t: nat, v: Value)
    | CallPop(t: nat)
    | Advance(t: nat)
    | FailSpuriously(t: nat)

  predicate Returned(th: Thread) {
    th.Idle? || th.PushOk? || th.PushFull? || th.PopOk? || th.PopEmpty?
  }

  /** An action whose thread cannot take it leaves the state alone. */
  function Next(s: State, a: Action): (s': State)
    requires 0 < s.Capacity()
    ensures |s'.slots| == |s.slots| && |s'.threads| == |s.threads|
  {
    if a.t >= |s.threads| then s
    else
      var th := s.threads[a.t];
      match a
      case CallPush(t, v) => if Returned(th) then s.(threads := s.threads[t := PushLoadTail(v)]) else s
      case CallPop(t) => if Returned(th) then s.(threads := s.threads[t := PopLoadHead]) else s
      case Advance(t) => Access(s, t)
      case FailSpuriously(t) =>
        if th.PushCas? then s.(threads := s.threads[t := PushLoadSeq(th.v, s.tail)])
        else if th.PopCas? then s.(threads := s.threads[t := PopLoadSeq(s.head)])
        else s
  }

  /** One atomic access by thread t. */
  function Access(s: State, t: nat): (s': State)
    requires 0 < s.Capacity() && t < |s.threads|
    ensures |s'.slots| == |s.slots| && |s'.threads| == |s.threads|
  {
    match s.threads[t]
    case Idle => s
    case PushLoadTail(v) => s.(threads := s.threads[t := PushLoadSeq(v, s.tail)])
    case PushLoadSeq(v, pos) =>
      var diff := SeqAt(s.slots, pos) - pos;
      s.(threads := s.threads[t :=
           if diff == 0 then PushCas(v, pos) else if diff < 0 then PushFull else PushLoadTail(v)])
    case PushCas(v, pos) =>
      if s.tail == pos then
        s.(tail := pos + 1, threads := s.threads[t := PushWrite(v, pos)],
           log := s.log + [Enq(v)], pushed := s.pushed + [v])
      else
        s.(threads := s.threads[t := PushLoadSeq(v, s.tail)])
    case PushWrite(v, pos) =>
      var i := pos % s.Capacity();
      s.(slots := s.slots[i := s.slots[i].(data := v)], threads := s.threads[t := PushPublish(v, pos)])
    case PushPublish(v, pos) =>
      var i := pos % s.Capacity();
      s.(slots := s.slots[i := s.slots[i].(seqNo := pos + 1)], threads := s.threads[t := PushOk(pos, v)])
    case PushOk(_, _) => s
    case PushFull => s
    case PopLoadHead => s.(threads := s.threads[t := PopLoadSeq(s.head)])
    case PopLoadSeq(pos) =>
      var diff := SeqAt(s.slots, pos) - (pos + 1);
      s.(threads := s.threads[t := if diff == 0 then PopCas(pos) else if diff < 0 then PopEmpty else PopLoadHead])
    case PopCas(pos) =>
      if s.head == pos then
        s.(head := pos + 1, threads := s.threads[t := PopRead(pos)], log := s.log + [Deq], popped := s.popped + [None])
      else
        s.(threads := s.threads[t := PopLoadSeq(s.head)])
    case PopRead(pos) =>
      var d := DataAt(s.slots, pos);
      s.(threads := s.threads[t := PopRecycle(pos, d)],
         popped := if pos < |s.popped| then s.popped[pos := Some(d)] else s.popped)
    case PopRecycle(pos, d) =>
      var i := pos % s.Capacity();
      s.(slots := s.slots[i := s.slots[i].(seqNo := pos + s.Capacity())], threads := s.threads[t := PopOk(pos, d)])
    case PopOk(_, _) => s
    case PopEmpty => s
  }

  /** A run: the actions of any interleaving, in order. */
  function Run(s: State, actions: seq<Action>): (s': State)
    requires 0 < s.Capacity()
    ensures |s'.slots| == |s.slots| && |s'.threads| == |s.threads|
  {
    if actions == [] then s
    else Next(Run(s, actions[..|actions| - 1]), actions[|actions| - 1])
  }

  // ---------------------------------------------------------------- invariant

  predicate PushOwns(th: Thread, p: int) {
    (th.PushWrite? || th.PushPublish?) && th.pos == p
  }

  predicate PopOwns(th: Thread, p: int) {
    (th.PopRead? || th.PopRecycle?) && th.pos == p
  }

  /** Between its compare-and-swap and its sequence store, the thread may touch the data of position p. */
  predicate Owns(th: Thread, p: int) {
    PushOwns(th, p) || PopOwns(th, p)
  }

  /** The last `capacity` claimed positions, one for each slot. */
  predicate Current(s: State, p: int) {
    s.tail - s.Capacity() <= p < s.tail
  }

  /** The slot is free (claimed, not published), published or recycled for its current position. */
  ghost predicate SlotOk(s: State, p: int)
    requires 0 < s.Capacity()
  {
    && (SeqAt(s.slots, p) == p || SeqAt(s.slots, p) == p + 1 || SeqAt(s.slots, p) == p + s.Capacity())
    && (SeqAt(s.slots, p) == p ==> 0 <= p && s.head <= p)
    && (SeqAt(s.slots, p) == p + 1 ==> 0 <= p < |s.pushed| && DataAt(s.slots, p) == s.pushed[p])
    && (SeqAt(s.slots, p) == p + s.Capacity() ==> p < s.head)
  }

  ghost predicate SlotsOk(s: State)
    requires 0 < s.Capacity()
  {
    forall p {:trigger SeqAt(s.slots, p)} {:trigger Current(s, p)} :: Current(s, p) ==> SlotOk(s, p)
  }

  ghost predicate ThreadOk(s: State, th: Thread)
    requires 0 < s.Capacity()
  {
    match th
    case PushLoadSeq(_, pos) => pos <= s.tail
    case PushCas(_, pos) => pos <= s.tail && (pos == s.tail ==> SeqAt(s.slots, pos) == pos)
    case PushWrite(v, pos) =>
      Current(s, pos) && s.head <= pos < |s.pushed| && SeqAt(s.slots, pos) == pos && s.pushed[pos] == v
    case PushPublish(v, pos) =>
      && Current(s, pos) && s.head <= pos < |s.pushed| && SeqAt(s.slots, pos) == pos
      && s.pushed[pos] == v == DataAt(s.slots, pos)
    case PushOk(pos, v) => pos < |s.pushed| && s.pushed[pos] == v
    case PopLoadSeq(pos) => pos <= s.head
    case PopCas(pos) => pos <= s.head && (pos == s.head ==> SeqAt(s.slots, pos) == pos + 1)
    case PopRead(pos) =>
      && Current(s, pos) && pos < s.head && pos < |s.popped|
      && SeqAt(s.slots, pos) == pos + 1 && s.popped[pos] == None
    case PopRecycle(pos, d) =>
      Current(s, pos) && pos < s.head && pos < |s.popped| && SeqAt(s.slots, pos) == pos + 1 && s.popped[pos] == Some(d)
    case PopOk(pos, d) => pos < |s.popped| && s.popped[pos] == Some(d)
    case _ => true
  }

  ghost predicate ThreadsOk(s: State)
    requires 0 < s.Capacity()
  {
    forall t :: 0 <= t < |s.threads| ==> ThreadOk(s, s.threads[t])
  }

  /** No two threads own the same position. */
  ghost predicate Exclusive(s: State) {
    forall t, u, p ::
      0 <= t < |s.threads| && 0 <= u < |s.threads| && Owns(s.threads[t], p) && Owns(s.threads[u], p) ==> t == u
  }

  /** A position that is claimed but not yet published, or popped but not yet recycled, has its owner. */
  ghost predicate Attended(s: State)
    requires 0 < s.Capacity()
  {
    && (forall p {:trigger SeqAt(s.slots, p)} :: Current(s, p) && SeqAt(s.slots, p) == p ==>
          exists t :: 0 <= t < |s.threads| && PushOwns(s.threads[t], p))
    && (forall p {:trigger SeqAt(s.slots, p)} :: Current(s, p) && SeqAt(s.slots, p) == p + 1 && p < s.head ==>
          exists t :: 0 <= t < |s.threads| && PopOwns(s.threads[t], p))
  }

  ghost predicate HistoryOk(s: State) {
    && |s.pushed| == s.tail
    && |s.popped| == s.head
    && (forall k :: 0 <= k < s.head && s.popped[k].Some? ==> k < s.tail && s.popped[k].value == s.pushed[k])
    && (forall k :: 0 <= k < s.head && s.popped[k].None? ==>
          exists t :: 0 <= t < |s.threads| && s.threads[t] == PopRead(k))
  }

  ghost predicate Inv(s: State) {
    && 2 <= s.Capacity()
    && s.head <= s.tail <= s.head + s.Capacity()
    && HistoryOk(s)
    && SlotsOk(s)
    && ThreadsOk(s)
    && Exclusive(s)
    && Attended(s)
  }

  /** Distinct positions less than a lap apart use distinct slots. */
  lemma DistinctSlots(p: int, q: int, c: nat)
    requires 0 < c && p < q < p + c
    ensures p % c != q % c
  {
    var dq := q / c - p / c;
    assert q - p == c * dq + (q % c - p % c);
    assert dq >= 1 ==> c * dq >= c;
    assert dq <= 0 ==> c * dq <= 0;
  }

  lemma SameSlotNextLap(p: int, c: nat)
    requires 0 < c
    ensures (p - c) % c == p % c
  {
    assert p == c * (p / c) + p % c;
    assert p - c == c * (p / c - 1) + p % c;
    DivModUnique(p - c, p / c - 1, p % c, c);
  }

  lemma InitInv(capacity: nat, n: nat)
    requires 2 <= capacity
    ensures Inv(Init(capacity, n))
  {
    var s := Init(capacity, n);
    forall p | Current(s, p) ensures SeqAt(s.slots, p) == p + capacity && SlotOk(s, p) {
      SameSlotNextLap(p + capacity, capacity);
      DivModUnique(p + capacity, 0, p + capacity, capacity);
    }
  }

  // ---------------------------------------------------- one lemma per kind of step

  /** A step that only moves a thread between program points where it owns nothing. */
  lemma LocalStep(s: State, t: nat, th: Thread)
    requires Inv(s) && t < |s.threads| && ThreadOk(s, th)
    requires forall p :: !Owns(s.threads[t], p) && !Owns(th, p)
    ensures Inv(s.(threads := s.threads[t := th]))
  {
    var s' := s.(threads := s.threads[t := th]);
    forall u | 0 <= u < |s.threads| ensures ThreadOk(s', s'.threads[u]) {
      assert ThreadOk(s, s'.threads[u]);
    }
    assert SlotsOk(s') by {
      forall p | Current(s', p) ensures SlotOk(s', p) { assert SlotOk(s, p); }
    }
    LocalOwners(s, s', t);
  }

  lemma LocalOwners(s: State, s': State, t: nat)
    requires Inv(s) && t < |s.threads| == |s'.threads| && s' == s.(threads := s.threads[t := s'.threads[t]])
    requires forall p :: !Owns(s.threads[t], p) && !Owns(s'.threads[t], p)
    ensures Exclusive(s') && Attended(s') && HistoryOk(s')
  {
    hide SlotsOk, ThreadsOk, ThreadOk, SlotOk;
    forall u | 0 <= u < |s.threads| && u != t ensures s'.threads[u] == s.threads[u] {}
    KeepAttended(s, s', t, s.tail);
  }

  /** When only thread t moves, positions other than the one it owned, q, keep their owners. */
  lemma KeepAttended(s: State, s': State, t: nat, q: int)
    requires Inv(s) && t < |s.threads| == |s'.threads|
    requires s'.threads == s.threads[t := s'.threads[t]]
    requires forall p :: Owns(s.threads[t], p) ==> p == q
    ensures forall p {:trigger SeqAt(s.slots, p)} :: p != q && Current(s, p) && SeqAt(s.slots, p) == p ==>
              exists u :: 0 <= u < |s'.threads| && PushOwns(s'.threads[u], p)
    ensures forall p {:trigger SeqAt(s.slots, p)} ::
      p != q && Current(s, p) && SeqAt(s.slots, p) == p + 1 && p < s.head ==>
              exists u :: 0 <= u < |s'.threads| && PopOwns(s'.threads[u], p)
    ensures forall k :: k != q && 0 <= k < s.head && s.popped[k].None? ==>
              exists u :: 0 <= u < |s'.threads| && s'.threads[u] == PopRead(k)
  {
    forall p {:trigger SeqAt(s.slots, p)} | p != q && Current(s, p) && SeqAt(s.slots, p) == p
      ensures exists u :: 0 <= u < |s'.threads| && PushOwns(s'.threads[u], p)
    {
      var u :| 0 <= u < |s.threads| && PushOwns(s.threads[u], p);
      assert Owns(s.threads[u], p) && PushOwns(s'.threads[u], p);
    }
    forall p {:trigger SeqAt(s.slots, p)} | p != q && Current(s, p) && SeqAt(s.slots, p) == p + 1 && p < s.head
      ensures exists u :: 0 <= u < |s'.threads| && PopOwns(s'.threads[u], p)
    {
      var u :| 0 <= u < |s.threads| && PopOwns(s.threads[u], p);
      assert Owns(s.threads[u], p) && PopOwns(s'.threads[u], p);
    }
    forall k | k != q && 0 <= k < s.head && s.popped[k].None?
      ensures exists u :: 0 <= u < |s'.threads| && s'.threads[u] == PopRead(k)
    {
      var u :| 0 <= u < |s.threads| && s.threads[u] == PopRead(k);
      assert Owns(s.threads[u], k) && s'.threads[u] == PopRead(k);
    }
  }

  /** The slot that a push claims is recycled from the lap before. */
  lemma PushClaimFree(s: State, t: nat)
    requires Inv(s) && t < |s.threads|
    requires s.threads[t].PushCas? && s.threads[t].pos == s.tail
    ensures s.tail < s.head + s.Capacity() && SeqAt(s.slots, s.tail) == SeqAt(s.slots, s.tail - s.Capacity()) == s.tail
  {
    assert ThreadOk(s, s.threads[t]);
    SameSlotNextLap(s.tail, s.Capacity());
    assert SlotOk(s, s.tail - s.Capacity());
  }

  lemma PushClaimSlots(s: State, t: nat)
    requires Inv(s) && t < |s.threads|
    requires s.threads[t].PushCas? && s.threads[t].pos == s.tail
    ensures s.tail < s.head + s.Capacity()
    ensures SlotsOk(Access(s, t)) && SeqAt(s.slots, s.tail - s.Capacity()) == s.tail
  {
    PushClaimFree(s, t);
    var s' := Access(s, t);
    assert s'.slots == s.slots && s'.head == s.head && s'.tail == s.tail + 1 && s.pushed <= s'.pushed;
    forall p | Current(s', p) ensures SlotOk(s', p) {
      if p != s.tail { OlderSlotOk(s, s', p); }
    }
  }

  lemma OlderSlotOk(s: State, s': State, p: int)
    requires 0 < s.Capacity() && SlotsOk(s) && Current(s, p)
    requires s'.slots == s.slots && s'.head == s.head && s.pushed <= s'.pushed
    ensures SlotOk(s', p)
  {
    assert SlotOk(s, p);
  }

  lemma PushClaimThread(s: State, t: nat, u: nat)
    requires Inv(s) && t < |s.threads| && u < |s.threads|
    requires s.threads[t].PushCas? && s.threads[t].pos == s.tail
    ensures ThreadOk(Access(s, t), Access(s, t).threads[u])
    ensures u != t ==> forall p :: Owns(s.threads[u], p) ==> p < s.tail
  {
    PushClaimSlots(s, t);
    if u != t {
      assert ThreadOk(s, s.threads[u]);
    } else {
      SameSlotNextLap(s.tail, s.Capacity());
    }
  }

  lemma PushClaimThreads(s: State, t: nat)
    requires Inv(s) && t < |s.threads|
    requires s.threads[t].PushCas? && s.threads[t].pos == s.tail
    ensures ThreadsOk(Access(s, t)) && Exclusive(Access(s, t))
  {
    var s' := Access(s, t);
    forall u | 0 <= u < |s.threads|
      ensures ThreadOk(s', s'.threads[u])
      ensures u != t ==> forall p :: Owns(s.threads[u], p) ==> p < s.tail
    {
      PushClaimThread(s, t, u);
    }
  }

  lemma PushClaimStep(s: State, t: nat)
    requires Inv(s) && t < |s.threads|
    requires s.threads[t].PushCas? && s.threads[t].pos == s.tail
    ensures Inv(Access(s, t))
  {
    var s' := Access(s, t);
    PushClaimSlots(s, t);
    PushClaimThreads(s, t);
    KeepAttended(s, s', t, s.tail);
    assert PushOwns(s'.threads[t], s.tail);
    assert Attended(s') by {
      assert forall p :: Current(s', p) && p != s.tail ==> Current(s, p);
    }
    assert HistoryOk(s');
  }

  /** A consumer that saw the head position published is below the tail. */
  lemma PopCasBelowTail(s: State, u: nat)
    requires Inv(s) && u < |s.threads|
    requires s.threads[u].PopCas? && s.threads[u].pos == s.head
    ensures s.head < s.tail && Current(s, s.head) && SeqAt(s.slots, s.head) == s.head + 1
  {
    assert ThreadOk(s, s.threads[u]);
    SameSlotNextLap(s.head, s.Capacity());
    assert s.head == s.tail ==> SlotOk(s, s.head - s.Capacity());
  }

  lemma PopClaimSlots(s: State, t: nat)
    requires Inv(s) && t < |s.threads|
    requires s.threads[t].PopCas? && s.threads[t].pos == s.head
    ensures s.head < s.tail && SlotsOk(Access(s, t)) && Current(s, s.head) && SeqAt(s.slots, s.head) == s.head + 1
  {
    var s' := Access(s, t);
    PopCasBelowTail(s, t);
    forall p | Current(s', p) ensures SlotOk(s', p) {
      assert SlotOk(s, p);
    }
  }

  lemma PopClaimThread(s: State, t: nat, u: nat)
    requires Inv(s) && t < |s.threads| && u < |s.threads|
    requires s.threads[t].PopCas? && s.threads[t].pos == s.head
    ensures ThreadOk(Access(s, t), Access(s, t).threads[u])
    ensures u != t ==> !Owns(s.threads[u], s.head)
  {
    PopCasBelowTail(s, t);
    assert ThreadOk(s, s.threads[u]);
  }

  lemma PopClaimThreads(s: State, t: nat)
    requires Inv(s) && t < |s.threads|
    requires s.threads[t].PopCas? && s.threads[t].pos == s.head
    ensures ThreadsOk(Access(s, t)) && Exclusive(Access(s, t))
  {
    var s' := Access(s, t);
    forall u | 0 <= u < |s.threads|
      ensures ThreadOk(s', s'.threads[u]) && (u != t ==> !Owns(s.threads[u], s.head))
    {
      PopClaimThread(s, t, u);
    }
  }

  lemma PopClaimStep(s: State, t: nat)
    requires Inv(s) && t < |s.threads|
    requires s.threads[t].PopCas? && s.threads[t].pos == s.head
    ensures Inv(Access(s, t))
  {
    var s' := Access(s, t);
    PopClaimSlots(s, t);
    PopClaimThreads(s, t);
    KeepAttended(s, s', t, s.tail);
    assert PopOwns(s'.threads[t], s.head) && s'.threads[t] == PopRead(s.head);
    assert HistoryOk(s');
  }

  /** Writing the slot of position q leaves every other position within a lap alone. */
  lemma SlotFrame(slots: seq<Slot>, slots': seq<Slot>, q: int, p: int)
    requires 0 < |slots| == |slots'| && q - |slots| < p < q + |slots| && p != q
    requires forall i :: 0 <= i < |slots| && i != q % |slots| ==> slots'[i] == slots[i]
    ensures SeqAt(slots', p) == SeqAt(slots, p) && DataAt(slots', p) == DataAt(slots, p)
  {
    if p < q { DistinctSlots(p, q, |slots|); } else { DistinctSlots(q, p, |slots|); }
  }

  /** The slots differ from those of s only where thread t, the owner of position q, may write. */
  ghost predicate WrittenBy(s: State, slots': seq<Slot>, t: nat, q: int) {
    && Inv(s) && t < |s.threads| && Owns(s.threads[t], q) && |slots'| == |s.slots|
    && forall i :: 0 <= i < |s.slots| && i != q % |s.slots| ==> slots'[i] == s.slots[i]
  }

  /** The slots that the others look at, as owners or for the next position at either end, are not written. */
  lemma OwnedUnwritten(s: State, slots': seq<Slot>, t: nat, q: int, u: nat, p: int)
    requires WrittenBy(s, slots', t, q) && u < |s.threads| && t != u && Owns(s.threads[u], p)
    ensures SeqAt(slots', p) == SeqAt(s.slots, p) && DataAt(slots', p) == DataAt(s.slots, p)
  {
    assert ThreadOk(s, s.threads[t]) && ThreadOk(s, s.threads[u]);
    SlotFrame(s.slots, slots', q, p);
  }

  lemma TailUnwritten(s: State, slots': seq<Slot>, t: nat, q: int)
    requires WrittenBy(s, slots', t, q) && SeqAt(s.slots, s.tail) == s.tail
    ensures SeqAt(slots', s.tail) == s.tail
  {
    assert ThreadOk(s, s.threads[t]);
    SameSlotNextLap(s.tail, s.Capacity());
    SlotFrame(s.slots, slots', q, s.tail - s.Capacity());
  }

  lemma HeadUnwritten(s: State, slots': seq<Slot>, t: nat, q: int, u: nat)
    requires WrittenBy(s, slots', t, q) && u < |s.threads| && s.threads[u].PopCas? && s.threads[u].pos == s.head
    ensures SeqAt(slots', s.head) == s.head + 1
  {
    assert ThreadOk(s, s.threads[t]);
    PopCasBelowTail(s, u);
    SlotFrame(s.slots, slots', q, s.head);
  }

  /** What thread u knows survives a write by thread t to the slot that t owns. */
  lemma OtherThreadOk(s: State, slots': seq<Slot>, t: nat, q: int, u: nat)
    requires WrittenBy(s, slots', t, q) && u < |s.threads| && t != u
    ensures ThreadOk(s.(slots := slots'), s.threads[u])
  {
    var th := s.threads[u];
    assert ThreadOk(s, th);
    if th.PushWrite? || th.PushPublish? || th.PopRead? || th.PopRecycle? {
      OwnedUnwritten(s, slots', t, q, u, th.pos);
    } else if th.PushCas? && th.pos == s.tail {
      TailUnwritten(s, slots', t, q);
    } else if th.PopCas? && th.pos == s.head {
      HeadUnwritten(s, slots', t, q, u);
    }
  }

  /** From s to s', thread t writes the slot it owns for position q, and at most gives it up. */
  ghost predicate Writes(s: State, s': State, t: nat, q: nat) {
    && Inv(s) && t < |s.threads| == |s'.threads| && Owns(s.threads[t], q)
    && |s'.slots| == |s.slots|
    && s' == s.(slots := s'.slots, threads := s'.threads)
    && s'.threads == s.threads[t := s'.threads[t]]
    && (forall i :: 0 <= i < |s.slots| && i != q % |s.slots| ==> s'.slots[i] == s.slots[i])
    && SlotOk(s', q) && ThreadOk(s', s'.threads[t])
    && (forall p :: Owns(s'.threads[t], p) ==> p == q)
    && (SeqAt(s'.slots, q) == q ==> PushOwns(s'.threads[t], q))
    && (SeqAt(s'.slots, q) == q + 1 && q < s.head ==> PopOwns(s'.threads[t], q))
    && (q < s.head ==> s.popped[q].Some?)
  }

  lemma WriteKeepsSlots(s: State, s': State, t: nat, q: nat)
    requires Writes(s, s', t, q)
    ensures SlotsOk(s')
    ensures forall p {:trigger SeqAt(s'.slots, p)} ::
      Current(s', p) && p != q ==> SeqAt(s'.slots, p) == SeqAt(s.slots, p)
  {
    assert ThreadOk(s, s.threads[t]);
    forall p {:trigger SeqAt(s'.slots, p)} | Current(s', p)
      ensures SlotOk(s', p) && (p != q ==> SeqAt(s'.slots, p) == SeqAt(s.slots, p))
    {
      assert SlotOk(s, p);
      if p != q { SlotFrame(s.slots, s'.slots, q, p); }
    }
  }

  lemma WriteKeepsThreads(s: State, s': State, t: nat, q: nat)
    requires Writes(s, s', t, q)
    ensures ThreadsOk(s')
  {
    forall u | 0 <= u < |s.threads| ensures ThreadOk(s', s'.threads[u]) {
      if u != t {
        assert WrittenBy(s, s'.slots, t, q);
        OtherThreadOk(s, s'.slots, t, q, u);
        assert ThreadOk(s', s.threads[u]) == ThreadOk(s.(slots := s'.slots), s.threads[u]);
      }
    }
  }

  lemma WriteKeepsExclusive(s: State, s': State, t: nat, q: nat)
    requires Writes(s, s', t, q)
    ensures Exclusive(s')
  {
    hide SlotsOk, ThreadsOk, SlotOk, ThreadOk, Attended, HistoryOk;
    forall u, p | 0 <= u < |s'.threads| && Owns(s'.threads[u], p) ensures Owns(s.threads[u], p) {
      if u != t { assert s'.threads[u] == s.threads[u]; }
    }
  }

  lemma WriteKeepsOwners(s: State, s': State, t: nat, q: nat)
    requires Writes(s, s', t, q)
    ensures Exclusive(s') && Attended(s') && HistoryOk(s')
  {
    assert ThreadOk(s, s.threads[t]);
    WriteKeepsExclusive(s, s', t, q);
    WriteKeepsSlots(s, s', t, q);
    KeepAttended(s, s', t, q);
  }

  lemma WriteStep(s: State, t: nat)
    requires Inv(s) && t < |s.threads|
    requires s.threads[t].PushWrite? || s.threads[t].PushPublish? || s.threads[t].PopRecycle?
    ensures Inv(Access(s, t))
  {
    var s', q := Access(s, t), s.threads[t].pos;
    assert ThreadOk(s, s.threads[t]) && SlotOk(s, q);
    assert Writes(s, s', t, q);
    WriteKeepsSlots(s, s', t, q);
    WriteKeepsThreads(s, s', t, q);
    WriteKeepsOwners(s, s', t, q);
  }

  lemma PopReadThread(s: State, t: nat, u: nat)
    requires Inv(s) && t < |s.threads| && s.threads[t].PopRead? && u < |s.threads|
    ensures ThreadOk(Access(s, t), Access(s, t).threads[u])
    ensures ThreadOk(s, s.threads[t]) && SlotOk(s, s.threads[t].pos)
  {
    assert ThreadOk(s, s.threads[t]) && ThreadOk(s, s.threads[u]) && Owns(s.threads[t], s.threads[t].pos);
    if u != t && (s.threads[u].PopRead? || s.threads[u].PopRecycle?) {
      assert Owns(s.threads[u], s.threads[u].pos);
    }
  }

  lemma PopReadOwners(s: State, t: nat)
    requires Inv(s) && t < |s.threads| && s.threads[t].PopRead?
    ensures Exclusive(Access(s, t)) && Attended(Access(s, t)) && HistoryOk(Access(s, t))
  {
    var s', q := Access(s, t), s.threads[t].pos;
    PopReadThread(s, t, t);
    KeepAttended(s, s', t, q);
    assert PopOwns(s'.threads[t], q);
    assert forall u :: 0 <= u < |s.threads| && u != t ==> s'.threads[u] == s.threads[u];
  }

  lemma PopReadStep(s: State, t: nat)
    requires Inv(s) && t < |s.threads| && s.threads[t].PopRead?
    ensures Inv(Access(s, t))
  {
    var s' := Access(s, t);
    forall p | Current(s', p) ensures SlotOk(s', p) {
      assert SlotOk(s, p);
    }
    forall u | 0 <= u < |s.threads| ensures ThreadOk(s', s'.threads[u]) {
      PopReadThread(s, t, u);
    }
    PopReadOwners(s, t);
  }

  predicate Local(s: State, th: Thread) {
    th.PushLoadTail? || th.PushLoadSeq? || (th.PushCas? && th.pos != s.tail) ||
    th.PopLoadHead? || th.PopLoadSeq? || (th.PopCas? && th.pos != s.head)
  }

  lemma LocalAccess(s: State, t: nat)
    requires Inv(s) && t < |s.threads| && Local(s, s.threads[t])
    ensures Inv(Access(s, t))
  {
    assert ThreadOk(s, s.threads[t]);
    LocalStep(s, t, Access(s, t).threads[t]);
  }

  lemma AccessInv(s: State, t: nat)
    requires Inv(s) && t < |s.threads|
    ensures Inv(Access(s, t))
  {
    var th := s.threads[t];
    if th.PushWrite? || th.PushPublish? || th.PopRecycle? {
      WriteStep(s, t);
    } else if th.PopRead? {
      PopReadStep(s, t);
    } else if th.PushCas? && th.pos == s.tail {
      PushClaimStep(s, t);
    } else if th.PopCas? && th.pos == s.head {
      PopClaimStep(s, t);
    } else if Local(s, th) {
      LocalAccess(s, t);
    } else {
      assert Returned(th);
    }
  }

  lemma StepInv(s: State, a: Action)
    requires Inv(s)
    ensures Inv(Next(s, a))
  {
    if a.t < |s.threads| {
      var th := s.threads[a.t];
      if a.Advance? {
        AccessInv(s, a.t);
      } else if Next(s, a) != s {
        LocalStep(s, a.t, Next(s, a).threads[a.t]);
      }
    }
  }

  /** Every state that any interleaving of any number of threads reaches satisfies the invariant. */
  lemma {:induction false} ReachableInv(capacity: nat, n: nat, actions: seq<Action>)
    requires 2 <= capacity
    ensures Inv(Run(Init(capacity, n), actions))
  {
    if actions == [] {
      InitInv(capacity, n);
    } else {
      ReachableInv(capacity, n, actions[..|actions| - 1]);
      StepInv(Run(Init(capacity, n), actions[..|actions| - 1]), actions[|actions| - 1]);
    }
  }
}
