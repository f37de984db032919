/** What the ring queue promises its callers, for every interleaving of any number of threads. */
module QueueTheorems {
  import opened Common
  import opened RingQueue

  /** Indices stay within a lap, slots are in one of their three phases, and no slot has two owners. */
  lemma SafeInEveryRun(capacity: nat, n: nat, actions: seq<Action>)
    requires 2 <= capacity
    ensures var s := Run(Init(capacity, n), actions);
      && Bounded(s)
      && (forall p :: Current(s, p) ==> SeqAt(s.slots, p) in {p, p + 1, p + capacity})
      && SlotsExclusive(s)
  {
    var s := Run(Init(capacity, n), actions);
    ReachableInv(capacity, n, actions);
    forall p | Current(s, p) ensures SeqAt(s.slots, p) in {p, p + 1, p + capacity} {
      assert SlotOk(s, p);
    }
    ExclusiveSlots(s);
  }

  predicate Bounded(s: State) {
    s.head <= s.tail <= s.head + s.Capacity()
  }

  /** Two threads that may touch slot data at the same time touch different slots. */
  ghost predicate SlotsExclusive(s: State)
    requires 0 < s.Capacity()
  {
    forall t, u, p, q ::
      0 <= t < |s.threads| && 0 <= u < |s.threads| && t != u && Owns(s.threads[t], p) && Owns(s.threads[u], q)
      ==> p % s.Capacity() != q % s.Capacity()
  }

  lemma ExclusiveSlots(s: State)
    requires Inv(s)
    ensures SlotsExclusive(s)
  {
    forall t, u, p, q |
      0 <= t < |s.threads| && 0 <= u < |s.threads| && t != u && Owns(s.threads[t], p) && Owns(s.threads[u], q)
      ensures p % s.Capacity() != q % s.Capacity()
    {
      assert ThreadOk(s, s.threads[t]) && ThreadOk(s, s.threads[u]);
      if p < q { DistinctSlots(p, q, s.Capacity()); } else { DistinctSlots(q, p, s.Capacity()); }
    }
  }

  /** A slot's sequence number never decreases. */
  lemma SeqNeverDecreases(capacity: nat, n: nat, actions: seq<Action>, a: Action, i: nat)
    requires 2 <= capacity && i < capacity
    ensures var s := Run(Init(capacity, n), actions);
      Next(s, a).slots[i].seqNo >= s.slots[i].seqNo
  {
    var s := Run(Init(capacity, n), actions);
    ReachableInv(capacity, n, actions);
    if a.t < |s.threads| {
      assert ThreadOk(s, s.threads[a.t]);
    }
  }

  // ------------------------------------------------- refinement of a FIFO queue

  /** The abstract queue: the waiting items, and the items already dequeued, in order. */
  datatype Fifo = Fifo(items: seq<Value>, taken: seq<Value>)

  /** Dequeuing from an empty queue is not possible. */
  function Apply(q: Fifo, op: Op): Option<Fifo> {
    match op
    case Enq(v) => Some(Fifo(q.items + [v], q.taken))
    case Deq => if q.items == [] then None else Some(Fifo(q.items[1..], q.taken + [q.items[0]]))
  }

  function Replay(log: seq<Op>): Option<Fifo> {
    if log == [] then Some(Fifo([], []))
    else match Replay(log[..|log| - 1])
      case None => None
      case Some(q) => Apply(q, log[|log| - 1])
  }

  ghost predicate Linearised(s: State) {
    && s.head <= |s.pushed| == s.tail
    && Replay(s.log) == Some(Fifo(s.pushed[s.head..], s.pushed[..s.head]))
  }

  lemma EnqStep(s: State, s': State, v: Value)
    requires Linearised(s)
    requires s'.head == s.head && s'.tail == s.tail + 1 && s'.pushed == s.pushed + [v] && s'.log == s.log + [Enq(v)]
    ensures Linearised(s')
  {
    assert s'.log[..|s'.log| - 1] == s.log;
    assert s'.pushed[s'.head..] == s.pushed[s.head..] + [v];
    assert s'.pushed[..s'.head] == s.pushed[..s.head];
  }

  lemma DeqStep(s: State, s': State)
    requires Linearised(s) && s.head < s.tail
    requires s'.head == s.head + 1 && s'.tail == s.tail && s'.pushed == s.pushed && s'.log == s.log + [Deq]
    ensures Linearised(s')
  {
    assert s'.log[..|s'.log| - 1] == s.log;
    assert s'.pushed[s'.head..] == s.pushed[s.head..][1..];
    assert s'.pushed[..s'.head] == s.pushed[..s.head] + [s.pushed[s.head]];
  }

  lemma StepLinearises(s: State, a: Action)
    requires Inv(s) && Linearised(s)
    ensures Linearised(Next(s, a))
  {
    if a.Advance? && a.t < |s.threads| {
      var th, s' := s.threads[a.t], Next(s, a);
      if th.PushCas? && th.pos == s.tail {
        EnqStep(s, s', th.v);
      } else if th.PopCas? && th.pos == s.head {
        PopCasBelowTail(s, a.t);
        DeqStep(s, s');
      }
    }
  }

  /** The compare-and-swaps of any run, taken in order, are a legal history of a FIFO queue:
      its k-th dequeue takes the value of the k-th enqueue. */
  lemma {:induction false} LinearisesToFifo(capacity: nat, n: nat, actions: seq<Action>)
    requires 2 <= capacity
    ensures Linearised(Run(Init(capacity, n), actions))
  {
    if actions != [] {
      LinearisesToFifo(capacity, n, actions[..|actions| - 1]);
      ReachableInv(capacity, n, actions[..|actions| - 1]);
      StepLinearises(Run(Init(capacity, n), actions[..|actions| - 1]), actions[|actions| - 1]);
    }
  }

  /** An operation takes effect inside its own call, and only once: the only actions that extend the
      history are the successful compare-and-swaps of a thread that is inside push(v) or pop. */
  lemma ClaimsHappenInsideCalls(s: State, a: Action)
    requires 0 < s.Capacity() && Next(s, a).log != s.log
    ensures a.Advance? && a.t < |s.threads|
    ensures var th, th' := s.threads[a.t], Next(s, a).threads[a.t];
      || (th.PushCas? && Next(s, a).log == s.log + [Enq(th.v)] && th' == PushWrite(th.v, s.tail))
      || (th.PopCas? && Next(s, a).log == s.log + [Deq] && th' == PopRead(s.head))
  {
  }

  // --------------------------------------------------- results handed to callers

  datatype Completion = Pushed(pos: nat, v: Value) | Popped(pos: nat, v: Value)

  /** The successful returns of a run, in the order in which they happen. */
  function Completions(s: State, actions: seq<Action>): seq<Completion>
    requires 0 < s.Capacity()
  {
    if actions == [] then []
    else
      var front, a := actions[..|actions| - 1], actions[|actions| - 1];
      Completions(s, front) + Completed(Run(s, front), a)
  }

  function Completed(s: State, a: Action): seq<Completion>
    requires 0 < s.Capacity()
  {
    if !a.Advance? || a.t >= |s.threads| then []
    else match s.threads[a.t]
      case PushPublish(v, pos) => [Pushed(pos, v)]
      case PopRecycle(pos, d) => [Popped(pos, d)]
      case _ => []
  }

  /** A completion carries the value that the history assigns to its position. */
  ghost predicate Faithful(s: State, done: seq<Completion>) {
    forall i :: 0 <= i < |done| ==>
      && done[i].pos < |s.pushed| && done[i].v == s.pushed[done[i].pos]
      && (done[i].Popped? ==> done[i].pos < s.head)
  }

  /** No completion happens twice, and a completed position has no owner left. */
  ghost predicate Once(s: State, done: seq<Completion>) {
    && (forall i, j :: 0 <= i < j < |done| ==> done[i] != done[j])
    && (forall i, t :: 0 <= i < |done| && 0 <= t < |s.threads| ==> !OwnerOf(s.threads[t], done[i]))
  }

  /** The thread is still at work on what the completion will report. */
  predicate OwnerOf(th: Thread, c: Completion) {
    if c.Pushed? then PushOwns(th, c.pos) else PopOwns(th, c.pos)
  }

  /** A completion is done or has its owner. */
  ghost predicate Pending(s: State, done: seq<Completion>, c: Completion) {
    c in done || exists t :: 0 <= t < |s.threads| && OwnerOf(s.threads[t], c)
  }

  /** Every claimed position is accounted for: completed once, or still owned. */
  ghost predicate Accounted(s: State, done: seq<Completion>) {
    && s.head <= s.tail == |s.pushed|
    && Faithful(s, done)
    && Once(s, done)
    && (forall p :: 0 <= p < s.tail ==> Pending(s, done, Pushed(p, s.pushed[p])))
    && (forall p :: 0 <= p < s.head ==> Pending(s, done, Popped(p, s.pushed[p])))
  }

  /** Thread t alone moves and gives up no more than c. */
  lemma StillPending(s: State, s': State, t: nat, done: seq<Completion>, c: Completion)
    requires t < |s.threads| == |s'.threads| && s'.threads == s.threads[t := s'.threads[t]]
    requires Pending(s, done, c)
    requires OwnerOf(s.threads[t], c) ==> OwnerOf(s'.threads[t], c)
    ensures Pending(s', done, c)
  {
    if c !in done {
      var u :| 0 <= u < |s.threads| && OwnerOf(s.threads[u], c);
      assert OwnerOf(s'.threads[u], c);
    }
  }

  /** Only thread t moves; it gives up nothing, and claims the positions that an index moves over. */
  ghost predicate Quiet(s: State, s': State, t: nat) {
    && t < |s.threads| == |s'.threads| && s'.threads == s.threads[t := s'.threads[t]]
    && s.tail <= s'.tail == |s'.pushed| && s.pushed <= s'.pushed
    && s.head <= s'.head <= s'.tail
    && (forall c :: OwnerOf(s.threads[t], c) ==> OwnerOf(s'.threads[t], c))
    && (forall c :: OwnerOf(s'.threads[t], c) ==>
          OwnerOf(s.threads[t], c) || c.pos >= (if c.Pushed? then s.tail else s.head))
    && (forall p :: s.tail <= p < s'.tail ==> PushOwns(s'.threads[t], p))
    && (forall p :: s.head <= p < s'.head ==> PopOwns(s'.threads[t], p))
  }

  /** A step that completes nothing. */
  lemma AccountedQuietStep(s: State, s': State, t: nat, done: seq<Completion>)
    requires Accounted(s, done) && Quiet(s, s', t)
    ensures Accounted(s', done)
  {
    assert Faithful(s', done);
    forall p | 0 <= p < s'.tail ensures Pending(s', done, Pushed(p, s'.pushed[p])) {
      var c := Pushed(p, s'.pushed[p]);
      if p < s.tail { StillPending(s, s', t, done, c); } else { assert OwnerOf(s'.threads[t], c); }
    }
    forall p | 0 <= p < s'.head ensures Pending(s', done, Popped(p, s'.pushed[p])) {
      var c := Popped(p, s'.pushed[p]);
      if p < s.head { StillPending(s, s', t, done, c); } else { assert OwnerOf(s'.threads[t], c); }
    }
  }

  /** A step in which thread t returns c to its caller. */
  lemma AccountedReturn(s: State, s': State, t: nat, done: seq<Completion>, c: Completion)
    requires Accounted(s, done) && t < |s.threads| == |s'.threads| && Exclusive(s)
    requires s'.threads == s.threads[t := s'.threads[t]]
    requires s'.tail == s.tail && s'.pushed == s.pushed && s'.head == s.head
    requires OwnerOf(s.threads[t], c) && Faithful(s, [c])
    requires forall p :: !Owns(s'.threads[t], p)
    ensures Accounted(s', done + [c])
  {
    assert [c][0] == c && Owns(s.threads[t], c.pos);
    ReturnOnce(s, s', t, done, c);
    forall p | 0 <= p < s.tail ensures Pending(s', done + [c], Pushed(p, s.pushed[p])) {
      var e := Pushed(p, s.pushed[p]);
      if e != c { StillPending(s, s', t, done, e); }
    }
    forall p | 0 <= p < s.head ensures Pending(s', done + [c], Popped(p, s.pushed[p])) {
      var e := Popped(p, s.pushed[p]);
      if e != c { StillPending(s, s', t, done, e); }
    }
  }

  lemma ReturnOnce(s: State, s': State, t: nat, done: seq<Completion>, c: Completion)
    requires Once(s, done) && t < |s.threads| == |s'.threads| && Exclusive(s)
    requires s'.threads == s.threads[t := s'.threads[t]]
    requires OwnerOf(s.threads[t], c)
    requires forall p :: !Owns(s'.threads[t], p)
    ensures Once(s', done + [c])
  {
    assert Owns(s.threads[t], c.pos);
    forall i, u | 0 <= i < |done + [c]| && 0 <= u < |s'.threads| ensures !OwnerOf(s'.threads[u], (done + [c])[i]) {
      if u == t {
        assert !Owns(s'.threads[t], (done + [c])[i].pos);
      } else if i == |done| {
        assert !Owns(s.threads[u], c.pos);
      }
    }
  }

  lemma AccountedCompletion(s: State, t: nat, done: seq<Completion>)
    requires Inv(s) && Accounted(s, done) && t < |s.threads|
    requires s.threads[t].PushPublish? || s.threads[t].PopRecycle?
    ensures Accounted(Access(s, t), done + Completed(s, Advance(t)))
  {
    var th := s.threads[t];
    assert ThreadOk(s, th) && HistoryOk(s);
    var c := if th.PushPublish? then Pushed(th.pos, th.v) else Popped(th.pos, th.d);
    assert [c][0] == c && Completed(s, Advance(t)) == [c];
    AccountedReturn(s, Access(s, t), t, done, c);
  }

  /** What an access that neither claims nor completes does to its thread's ownership: nothing. */
  lemma QuietAccess(s: State, t: nat)
    requires Inv(s) && t < |s.threads| && Completed(s, Advance(t)) == []
    requires !(s.threads[t].PushCas? && s.threads[t].pos == s.tail)
    requires !(s.threads[t].PopCas? && s.threads[t].pos == s.head)
    ensures Quiet(s, Access(s, t), t)
  {
    hide SlotsOk, ThreadsOk, Exclusive, Attended;
    var th, th' := s.threads[t], Access(s, t).threads[t];
    assert forall c :: OwnerOf(th', c) == OwnerOf(th, c);
  }

  lemma QuietClaim(s: State, t: nat)
    requires Inv(s) && t < |s.threads|
    requires
      || (s.threads[t].PushCas? && s.threads[t].pos == s.tail)
      || (s.threads[t].PopCas? && s.threads[t].pos == s.head)
    ensures Quiet(s, Access(s, t), t)
  {
    if s.threads[t].PopCas? { PopCasBelowTail(s, t); }
    hide SlotsOk, ThreadsOk, Exclusive, Attended;
  }

  /** Without a completion, the thread's ownership only grows, and only by the position its index moved over. */
  lemma QuietThread(s: State, a: Action)
    requires Inv(s) && a.t < |s.threads| && Completed(s, a) == []
    ensures Quiet(s, Next(s, a), a.t)
  {
    hide SlotsOk, ThreadsOk, Exclusive, Attended, Access;
    var th := s.threads[a.t];
    if a.Advance? {
      if (th.PushCas? && th.pos == s.tail) || (th.PopCas? && th.pos == s.head) {
        QuietClaim(s, a.t);
      } else {
        QuietAccess(s, a.t);
      }
    }
  }

  lemma AccountedStep(s: State, a: Action, done: seq<Completion>)
    requires Inv(s) && Accounted(s, done)
    ensures Accounted(Next(s, a), done + Completed(s, a))
  {
    if Completed(s, a) != [] {
      AccountedCompletion(s, a.t, done);
    } else {
      assert done + Completed(s, a) == done;
      if a.t < |s.threads| {
        QuietThread(s, a);
        AccountedQuietStep(s, Next(s, a), a.t, done);
      }
    }
  }

  lemma {:induction false} AccountedRun(capacity: nat, n: nat, actions: seq<Action>)
    requires 2 <= capacity
    ensures Accounted(Run(Init(capacity, n), actions), Completions(Init(capacity, n), actions))
  {
    if actions != [] {
      var front := actions[..|actions| - 1];
      AccountedRun(capacity, n, front);
      ReachableInv(capacity, n, front);
      AccountedStep(Run(Init(capacity, n), front), actions[|actions| - 1], Completions(Init(capacity, n), front));
    }
  }

  /** Nothing is lost, duplicated or reordered: over any run, the pops that have returned did so with the value of
      the push that claimed the same position, no position is returned twice, and once all threads are out of
      their calls the completed pushes and pops are exactly the claimed ones. */
  lemma ResultsAreFifo(capacity: nat, n: nat, actions: seq<Action>)
    requires 2 <= capacity
    ensures var s, done := Run(Init(capacity, n), actions), Completions(Init(capacity, n), actions);
      && (forall i :: 0 <= i < |done| ==> done[i].pos < |s.pushed| && done[i].v == s.pushed[done[i].pos])
      && (forall i, j :: 0 <= i < j < |done| && done[i].Popped? && done[j].Popped? ==> done[i].pos != done[j].pos)
      && (forall i, j :: 0 <= i < j < |done| && done[i].Pushed? && done[j].Pushed? ==> done[i].pos != done[j].pos)
      && (Quiescent(s) ==>
            && (forall p :: 0 <= p < |s.pushed| ==> Pushed(p, s.pushed[p]) in done)
            && (forall p :: 0 <= p < s.head && p < |s.pushed| ==> Popped(p, s.pushed[p]) in done))
  {
    AccountedRun(capacity, n, actions);
    var s, done := Run(Init(capacity, n), actions), Completions(Init(capacity, n), actions);
    forall i, j | 0 <= i < j < |done| && (done[i].Popped? <==> done[j].Popped?) ensures done[i].pos != done[j].pos {
      assert done[i] != done[j] && done[i].v == s.pushed[done[i].pos] && done[j].v == s.pushed[done[j].pos];
    }
    if Quiescent(s) { QuiescentDone(s, done); }
  }

  /** With no owner left, what is pending is done. */
  lemma QuiescentDone(s: State, done: seq<Completion>)
    requires Accounted(s, done) && Quiescent(s)
    ensures forall p :: 0 <= p < |s.pushed| ==> Pushed(p, s.pushed[p]) in done
    ensures forall p :: 0 <= p < s.head && p < |s.pushed| ==> Popped(p, s.pushed[p]) in done
  {
    hide Faithful, Once;
    forall t, c | 0 <= t < |s.threads| ensures !OwnerOf(s.threads[t], c) {}
    forall p | 0 <= p < |s.pushed| ensures Pushed(p, s.pushed[p]) in done {
      assert Pending(s, done, Pushed(p, s.pushed[p]));
    }
    forall p | 0 <= p < s.head && p < |s.pushed| ensures Popped(p, s.pushed[p]) in done {
      assert Pending(s, done, Popped(p, s.pushed[p]));
    }
  }

  /** No thread is inside push or pop. */
  predicate Quiescent(s: State) {
    forall t :: 0 <= t < |s.threads| ==> Returned(s.threads[t])
  }

  // --------------------------------------------------------- failures and retries

  /** Position p has been claimed and its push has stored the sequence number. */
  ghost predicate Published(s: State, p: nat) {
    p < s.tail && !exists t :: 0 <= t < |s.threads| && PushOwns(s.threads[t], p)
  }

  /** Position p has been popped and its pop has stored the sequence number. */
  ghost predicate Recycled(s: State, p: nat) {
    p < s.head && !exists t :: 0 <= t < |s.threads| && PopOwns(s.threads[t], p)
  }

  /** At its load of the sequence number, pop gives up exactly when its position is the head and unpublished,
      and push exactly when its position is the tail and the position one lap back is not recycled. */
  lemma FailuresAreHonest(capacity: nat, n: nat, actions: seq<Action>, t: nat)
    requires 2 <= capacity && t < n
    ensures var s := Run(Init(capacity, n), actions); var th, th' := s.threads[t], Access(s, t).threads[t];
      && (th.PopLoadSeq? ==> (th'.PopEmpty? <==> th.pos == s.head && !Published(s, th.pos)))
      && (th.PushLoadSeq? ==>
            (th'.PushFull? <==> th.pos == s.tail && capacity <= th.pos && !Recycled(s, th.pos - capacity)))
  {
    hide Inv, Access, Published, Recycled;
    ReachableInv(capacity, n, actions);
    HonestHere(Run(Init(capacity, n), actions), t);
  }

  lemma HonestHere(s: State, t: nat)
    requires Inv(s) && t < |s.threads|
    ensures var th, th' := s.threads[t], Access(s, t).threads[t];
      && (th.PopLoadSeq? ==> (th'.PopEmpty? <==> th.pos == s.head && !Published(s, th.pos)))
      && (th.PushLoadSeq? ==>
            (th'.PushFull? <==> th.pos == s.tail && s.Capacity() <= th.pos && !Recycled(s, th.pos - s.Capacity())))
      && (th.PushLoadSeq? && th'.PushLoadTail? ==> th.pos < s.tail)
      && (th.PopLoadSeq? && th'.PopLoadHead? ==> th.pos < s.head)
      && (th.PushCas? && th'.PushLoadSeq? ==> th.pos < s.tail)
      && (th.PopCas? && th'.PopLoadSeq? ==> th.pos < s.head)
  {
    assert ThreadOk(s, s.threads[t]);
    if s.threads[t].PopLoadSeq? {
      PopSeqMeans(s, s.threads[t].pos);
    } else if s.threads[t].PushLoadSeq? {
      PushSeqMeans(s, s.threads[t].pos);
    }
  }

  /** A slot that has been claimed for a later lap shows a sequence number at least a lap ahead. */
  lemma StaleSeq(s: State, pos: nat)
    requires Inv(s) && pos < s.tail - s.Capacity()
    ensures SeqAt(s.slots, pos) >= pos + s.Capacity()
    decreases s.tail - pos
  {
    SameSlotNextLap(pos + s.Capacity(), s.Capacity());
    if pos + s.Capacity() < s.tail - s.Capacity() {
      StaleSeq(s, pos + s.Capacity());
    } else {
      assert SlotOk(s, pos + s.Capacity());
    }
  }

  /** A current position that shows p + 1 is published: no push still owns it. */
  lemma NoPusher(s: State, p: nat)
    requires Inv(s) && SeqAt(s.slots, p) != p
    ensures forall t :: 0 <= t < |s.threads| ==> !PushOwns(s.threads[t], p)
  {
    forall t | 0 <= t < |s.threads| ensures !PushOwns(s.threads[t], p) {
      assert ThreadOk(s, s.threads[t]);
    }
  }

  lemma NoPopper(s: State, p: nat)
    requires Inv(s) && SeqAt(s.slots, p) != p + 1
    ensures forall t :: 0 <= t < |s.threads| ==> !PopOwns(s.threads[t], p)
  {
    forall t | 0 <= t < |s.threads| ensures !PopOwns(s.threads[t], p) {
      assert ThreadOk(s, s.threads[t]);
    }
  }

  lemma PopSeqMeans(s: State, pos: nat)
    requires Inv(s) && pos <= s.head
    ensures SeqAt(s.slots, pos) < pos + 1 <==> pos == s.head && !Published(s, pos)
    ensures SeqAt(s.slots, pos) > pos + 1 ==> pos < s.head
  {
    if pos == s.tail {
      SameSlotNextLap(pos, s.Capacity());
      assert SlotOk(s, pos - s.Capacity());
    } else if Current(s, pos) {
      assert SlotOk(s, pos);
      if SeqAt(s.slots, pos) != pos { NoPusher(s, pos); }
    } else {
      StaleSeq(s, pos);
    }
  }

  lemma PushSeqMeans(s: State, pos: nat)
    requires Inv(s) && pos <= s.tail
    ensures SeqAt(s.slots, pos) < pos <==> pos == s.tail && s.Capacity() <= pos && !Recycled(s, pos - s.Capacity())
    ensures SeqAt(s.slots, pos) > pos ==> pos < s.tail
  {
    if pos == s.tail {
      var p := pos - s.Capacity();
      SameSlotNextLap(pos, s.Capacity());
      assert Current(s, p) && SlotOk(s, p);
      if 0 <= p && SeqAt(s.slots, p) != p + 1 { NoPopper(s, p); }
    } else if Current(s, pos) {
      assert SlotOk(s, pos);
    } else {
      StaleSeq(s, pos);
    }
  }

  /** Whenever an operation goes round its loop other than by a spurious failure, its index has moved on. */
  lemma RetriesMeanProgress(capacity: nat, n: nat, actions: seq<Action>, t: nat)
    requires 2 <= capacity && t < n
    ensures var s := Run(Init(capacity, n), actions); var th, th' := s.threads[t], Access(s, t).threads[t];
      && (th.PushCas? && th'.PushLoadSeq? ==> th.pos < s.tail)
      && (th.PushLoadSeq? && th'.PushLoadTail? ==> th.pos < s.tail)
      && (th.PopCas? && th'.PopLoadSeq? ==> th.pos < s.head)
      && (th.PopLoadSeq? && th'.PopLoadHead? ==> th.pos < s.head)
  {
    hide Inv, Access, Published, Recycled;
    ReachableInv(capacity, n, actions);
    HonestHere(Run(Init(capacity, n), actions), t);
  }

  /** The waiting items. */
  function Contents(s: State): seq<Value>
    requires s.head <= |s.pushed|
  {
    s.pushed[s.head..]
  }

  /** The steps of one uncontended call of thread t. */
  function Solo(call: Action, n: nat): seq<Action> {
    [call] + seq(n, _ => Advance(call.t))
  }

  /** Steps of thread t alone: accesses, and compare-and-swaps that fail spuriously. */
  ghost predicate Alone(steps: seq<Action>, t: nat) {
    forall i :: 0 <= i < |steps| ==> steps[i] == Advance(t) || steps[i] == FailSpuriously(t)
  }

  /** How many more accesses than spurious failures there are. */
  function Gain(steps: seq<Action>): int {
    if steps == [] then 0
    else Gain(steps[..|steps| - 1]) + if steps[|steps| - 1].Advance? then 1 else -1
  }

  /** n accesses by thread t. */
  function Accesses(s: State, t: nat, n: nat): (s': State)
    requires 0 < s.Capacity() && t < |s.threads|
    ensures s'.Capacity() == s.Capacity() && |s'.threads| == |s.threads|
  {
    if n == 0 then s else Access(Accesses(s, t, n - 1), t)
  }

  /** The call of thread t returns at its n-th access, and a spurious failure undoes at most the last one. */
  ghost predicate ReturnsAfter(s: State, t: nat, n: nat)
    requires 0 < s.Capacity() && t < |s.threads|
  {
    && Returned(Accesses(s, t, n).threads[t])
    && forall i :: 0 <= i < n ==>
         !Returned(Accesses(s, t, i).threads[t]) && SlipsFrom(Accesses(s, t, i), s, t, i)
  }

  /** x is the state after i accesses. */
  ghost predicate SlipsFrom(x: State, s: State, t: nat, i: nat)
    requires 0 < s.Capacity() && t < |s.threads| && 0 < x.Capacity()
  {
    Next(x, FailSpuriously(t)) == x || (0 < i && Next(x, FailSpuriously(t)) == Accesses(s, t, i - 1))
  }

  /** However often its compare-and-swap fails spuriously, a call alone is always as far as some number of its accesses,
      and it is done once its other steps are as many more than the failures as it has accesses. */
  lemma {:induction false} AloneRuns(s: State, call: Action, n: nat, steps: seq<Action>) returns (i: nat)
    requires 0 < s.Capacity() && call.t < |s.threads| && Alone(steps, call.t)
    requires ReturnsAfter(Next(s, call), call.t, n)
    ensures i <= n && Run(s, [call] + steps) == Accesses(Next(s, call), call.t, i)
    ensures i == n || i >= Gain(steps)
    decreases |steps|
  {
    hide Access, Next;
    var s0, t := Next(s, call), call.t;
    var all := [call] + steps;
    if steps == [] {
      assert all[..0] == [] && all[0] == call;
      i := 0;
    } else {
      var front, last := steps[..|steps| - 1], steps[|steps| - 1];
      assert all[..|all| - 1] == [call] + front && all[|all| - 1] == last;
      var j := AloneRuns(s, call, n, front);
      var x := Accesses(s0, t, j);
      i := if j == n then n else if last.Advance? then j + 1 else if Next(x, last) == x then j else j - 1;
      if j == n {
        ReturnedStays(x, last);
      } else if last.Advance? {
        AdvanceIsAccess(x, t);
      } else {
        assert SlipsFrom(x, s0, t, j);
      }
    }
  }

  lemma ReturnedStays(s: State, a: Action)
    requires 0 < s.Capacity() && a.t < |s.threads| && Returned(s.threads[a.t]) && (a.Advance? || a.FailSpuriously?)
    ensures Next(s, a) == s
  {
  }

  lemma AdvanceIsAccess(s: State, t: nat)
    requires 0 < s.Capacity() && t < |s.threads|
    ensures Next(s, Advance(t)) == Access(s, t)
  {
  }

  /** What a call alone comes to. */
  lemma AloneOutcome(s: State, call: Action, n: nat, steps: seq<Action>)
    requires 0 < s.Capacity() && call.t < |s.threads| && Alone(steps, call.t)
    requires ReturnsAfter(Next(s, call), call.t, n)
    ensures var e := Run(s, [call] + steps);
      && (n <= Gain(steps) ==> Returned(e.threads[call.t]))
      && (Returned(e.threads[call.t]) ==> e == Accesses(Next(s, call), call.t, n))
  {
    hide Access, Next, Run, Gain, Alone;
    var i := AloneRuns(s, call, n, steps);
  }

  lemma {:induction false} SoloGains(call: Action, n: nat)
    ensures var steps := seq(n, _ => Advance(call.t)); Alone(steps, call.t) && Gain(steps) == n
  {
    if n > 0 {
      var steps := seq(n, _ => Advance(call.t));
      assert steps[..n - 1] == seq(n - 1, _ => Advance(call.t));
      SoloGains(call, n - 1);
    }
  }

  lemma SoloOutcome(s: State, call: Action, n: nat)
    requires 0 < s.Capacity() && call.t < |s.threads| && ReturnsAfter(Next(s, call), call.t, n)
    ensures Run(s, Solo(call, n)) == Accesses(Next(s, call), call.t, n)
  {
    hide Run, Next, Accesses, ReturnsAfter, Gain, Alone;
    SoloGains(call, n);
    AloneOutcome(s, call, n, seq(n, _ => Advance(call.t)));
  }

  /** What a push alone leaves behind. */
  function AfterPush(s: State, t: nat, v: Value): State
    requires 0 < s.Capacity() && t < |s.threads|
  {
    s.(tail := s.tail + 1, slots := s.slots[s.tail % s.Capacity() := Slot(s.tail + 1, v)],
       threads := s.threads[t := PushOk(s.tail, v)], log := s.log + [Enq(v)], pushed := s.pushed + [v])
  }

  function AfterPop(s: State, t: nat): State
    requires 0 < s.Capacity() && t < |s.threads|
  {
    var d := DataAt(s.slots, s.head);
    s.(head := s.head + 1, slots := s.slots[s.head % s.Capacity() := Slot(s.head + s.Capacity(), d)],
       threads := s.threads[t := PopOk(s.head, d)], log := s.log + [Deq], popped := s.popped + [Some(d)])
  }

  function At(s: State, t: nat, th: Thread): State
    requires t < |s.threads|
  {
    s.(threads := s.threads[t := th])
  }

  lemma PushStarts(s: State, t: nat, v: Value)
    requires 0 < s.Capacity() && t < |s.threads| && Returned(s.threads[t])
    ensures var s0 := Next(s, CallPush(t, v));
      && s0 == At(s, t, PushLoadTail(v))
      && Accesses(s0, t, 1) == At(s, t, PushLoadSeq(v, s.tail))
      && Accesses(s0, t, 2) == At(s, t,
           if SeqAt(s.slots, s.tail) < s.tail then PushFull
           else if SeqAt(s.slots, s.tail) == s.tail then PushCas(v, s.tail) else PushLoadTail(v))
  {
    var s0 := Next(s, CallPush(t, v));
    assert Accesses(s0, t, 0) == s0 == At(s, t, PushLoadTail(v));
    assert Access(s0, t) == At(s, t, PushLoadSeq(v, s.tail));
  }

  /** The accesses of a push, from its compare-and-swap on. */
  lemma PushEnds(s: State, t: nat, v: Value)
    requires 0 < s.Capacity() && t < |s.threads|
    ensures var s2 := At(s, t, PushCas(v, s.tail)); var s3 := Access(s2, t); var s4 := Access(s3, t);
      && s3.threads[t] == PushWrite(v, s.tail) && s4.threads[t] == PushPublish(v, s.tail)
      && Access(s4, t) == AfterPush(s, t, v)
      && Next(s2, FailSpuriously(t)) == At(s, t, PushLoadSeq(v, s.tail))
  {
    var s3 := Access(At(s, t, PushCas(v, s.tail)), t);
    assert s3.threads == s.threads[t := PushWrite(v, s.tail)];
    var s4 := Access(s3, t);
    assert s4.threads == s.threads[t := PushPublish(v, s.tail)];
    var s5 := Access(s4, t);
    assert s5.threads == s.threads[t := PushOk(s.tail, v)];
    assert s5.slots == s.slots[s.tail % s.Capacity() := Slot(s.tail + 1, v)];
  }

  lemma FiveAccesses(s: State, t: nat)
    requires 0 < s.Capacity() && t < |s.threads|
    ensures Accesses(s, t, 0) == s
    ensures Accesses(s, t, 3) == Access(Accesses(s, t, 2), t) && Accesses(s, t, 4) == Access(Accesses(s, t, 3), t)
    ensures Accesses(s, t, 5) == Access(Accesses(s, t, 4), t)
  {
    hide Access;
  }

  lemma NoSlip(s: State, t: nat)
    requires 0 < s.Capacity() && t < |s.threads| && !s.threads[t].PushCas? && !s.threads[t].PopCas?
    ensures Next(s, FailSpuriously(t)) == s
  {
  }

  /** An uncontended push computes its outcome from the sequence number at the tail. */
  lemma PushAlone(s: State, t: nat, v: Value)
    requires 0 < s.Capacity() && t < |s.threads| && Returned(s.threads[t])
    ensures var s0 := Next(s, CallPush(t, v));
      && (SeqAt(s.slots, s.tail) < s.tail ==>
            ReturnsAfter(s0, t, 2) && Accesses(s0, t, 2) == At(s, t, PushFull))
      && (SeqAt(s.slots, s.tail) == s.tail ==>
            ReturnsAfter(s0, t, 5) && Accesses(s0, t, 5) == AfterPush(s, t, v))
  {
    hide Access, Next, Accesses;
    var s0 := Next(s, CallPush(t, v));
    PushStarts(s, t, v);
    PushEnds(s, t, v);
    FiveAccesses(s0, t);
    NoSlip(s0, t);
    NoSlip(At(s, t, PushLoadSeq(v, s.tail)), t);
    if SeqAt(s.slots, s.tail) == s.tail {
      NoSlip(Accesses(s0, t, 3), t);
      NoSlip(Accesses(s0, t, 4), t);
      forall i | 0 <= i < 5
        ensures !Returned(Accesses(s0, t, i).threads[t]) && SlipsFrom(Accesses(s0, t, i), s0, t, i)
      {
        assert i == 0 || i == 1 || i == 2 || i == 3 || i == 4;
      }
    } else if SeqAt(s.slots, s.tail) < s.tail {
      forall i | 0 <= i < 2
        ensures !Returned(Accesses(s0, t, i).threads[t]) && SlipsFrom(Accesses(s0, t, i), s0, t, i)
      {
        assert i == 0 || i == 1;
      }
    }
  }

  lemma PopStarts(s: State, t: nat)
    requires 0 < s.Capacity() && t < |s.threads| && Returned(s.threads[t])
    ensures var s0 := Next(s, CallPop(t));
      && s0 == At(s, t, PopLoadHead)
      && Accesses(s0, t, 1) == At(s, t, PopLoadSeq(s.head))
      && Accesses(s0, t, 2) == At(s, t,
           if SeqAt(s.slots, s.head) < s.head + 1 then PopEmpty
           else if SeqAt(s.slots, s.head) == s.head + 1 then PopCas(s.head) else PopLoadHead)
  {
    var s0 := Next(s, CallPop(t));
    assert Accesses(s0, t, 0) == s0 == At(s, t, PopLoadHead);
    assert Access(s0, t) == At(s, t, PopLoadSeq(s.head));
  }

  lemma PopEnds(s: State, t: nat)
    requires 0 < s.Capacity() && t < |s.threads| && |s.popped| == s.head
    ensures var s2, d := At(s, t, PopCas(s.head)), DataAt(s.slots, s.head); var s3 := Access(s2, t);
      var s4 := Access(s3, t);
      && s3.threads[t] == PopRead(s.head) && s4.threads[t] == PopRecycle(s.head, d)
      && Access(s4, t) == AfterPop(s, t)
      && Next(s2, FailSpuriously(t)) == At(s, t, PopLoadSeq(s.head))
  {
    var d := DataAt(s.slots, s.head);
    var s3 := Access(At(s, t, PopCas(s.head)), t);
    assert s3.threads == s.threads[t := PopRead(s.head)];
    var s4 := Access(s3, t);
    assert s4.threads == s.threads[t := PopRecycle(s.head, d)] && s4.popped == s.popped + [Some(d)];
    var s5 := Access(s4, t);
    assert s5.threads == s.threads[t := PopOk(s.head, d)];
    assert s5.slots == s.slots[s.head % s.Capacity() := Slot(s.head + s.Capacity(), d)];
  }

  /** An uncontended pop computes its outcome from the sequence number at the head. */
  lemma PopAlone(s: State, t: nat)
    requires 0 < s.Capacity() && t < |s.threads| && Returned(s.threads[t]) && |s.popped| == s.head
    ensures var s0 := Next(s, CallPop(t));
      && (SeqAt(s.slots, s.head) < s.head + 1 ==>
            ReturnsAfter(s0, t, 2) && Accesses(s0, t, 2) == At(s, t, PopEmpty))
      && (SeqAt(s.slots, s.head) == s.head + 1 ==>
            ReturnsAfter(s0, t, 5) && Accesses(s0, t, 5) == AfterPop(s, t))
  {
    hide Access, Next, Accesses;
    var s0 := Next(s, CallPop(t));
    PopStarts(s, t);
    PopEnds(s, t);
    FiveAccesses(s0, t);
    NoSlip(s0, t);
    NoSlip(At(s, t, PopLoadSeq(s.head)), t);
    if SeqAt(s.slots, s.head) == s.head + 1 {
      NoSlip(Accesses(s0, t, 3), t);
      NoSlip(Accesses(s0, t, 4), t);
      forall i | 0 <= i < 5
        ensures !Returned(Accesses(s0, t, i).threads[t]) && SlipsFrom(Accesses(s0, t, i), s0, t, i)
      {
        assert i == 0 || i == 1 || i == 2 || i == 3 || i == 4;
      }
    } else if SeqAt(s.slots, s.head) < s.head + 1 {
      forall i | 0 <= i < 2
        ensures !Returned(Accesses(s0, t, i).threads[t]) && SlipsFrom(Accesses(s0, t, i), s0, t, i)
      {
        assert i == 0 || i == 1;
      }
    }
  }

  /** What the sequence numbers at the two ends say when no call is in progress. */
  lemma QuiescentEnds(s: State)
    requires Inv(s) && Quiescent(s)
    ensures if s.tail - s.head == s.Capacity() then SeqAt(s.slots, s.tail) < s.tail
            else SeqAt(s.slots, s.tail) == s.tail
    ensures if s.tail == s.head then SeqAt(s.slots, s.head) < s.head + 1 else SeqAt(s.slots, s.head) == s.head + 1
  {
    SameSlotNextLap(s.tail, s.Capacity());
    assert SlotOk(s, s.tail - s.Capacity());
    assert s.head < s.tail ==> Current(s, s.head) && SlotOk(s, s.head);
    SameSlotNextLap(s.head, s.Capacity());
  }

  /** With no other call in progress, push fails exactly when the queue is full, changing nothing, and otherwise
      appends its value. However often its compare-and-swap fails spuriously, it returns once its accesses are two more
      than the failures (five when there is room), and not with another outcome. */
  lemma QuiescentPush(capacity: nat, n: nat, actions: seq<Action>, t: nat, v: Value, steps: seq<Action>)
    requires 2 <= capacity && t < n && Quiescent(Run(Init(capacity, n), actions)) && Alone(steps, t)
    ensures var s := Run(Init(capacity, n), actions);
      var full, s' := s.tail - s.head == capacity, Run(s, [CallPush(t, v)] + steps);
      && ((if full then 2 else 5) <= Gain(steps) ==> Returned(s'.threads[t]))
      && (Returned(s'.threads[t]) ==>
            if full then s' == s.(threads := s.threads[t := PushFull])
            else
              && s'.threads == s.threads[t := PushOk(s.tail, v)]
              && s.head <= |s.pushed| && s'.head <= |s'.pushed| && Contents(s') == Contents(s) + [v])
  {
    hide Run, Next, Accesses, Alone, Gain, ReturnsAfter;
    ReachableInv(capacity, n, actions);
    var s := Run(Init(capacity, n), actions);
    QuiescentEnds(s);
    PushAlone(s, t, v);
    AloneOutcome(s, CallPush(t, v), if s.tail - s.head == capacity then 2 else 5, steps);
  }

  /** With no other call in progress, pop fails exactly when the queue is empty, changing nothing, and otherwise
      removes the first value and returns it; spurious failures only delay it, as above. */
  lemma QuiescentPop(capacity: nat, n: nat, actions: seq<Action>, t: nat, steps: seq<Action>)
    requires 2 <= capacity && t < n && Quiescent(Run(Init(capacity, n), actions)) && Alone(steps, t)
    ensures var s := Run(Init(capacity, n), actions);
      var empty, s' := s.tail == s.head, Run(s, [CallPop(t)] + steps);
      && ((if empty then 2 else 5) <= Gain(steps) ==> Returned(s'.threads[t]))
      && (Returned(s'.threads[t]) ==>
            if empty then s' == s.(threads := s.threads[t := PopEmpty])
            else
              && s.head < |s.pushed| && s'.head <= |s'.pushed|
              && s'.threads == s.threads[t := PopOk(s.head, s.pushed[s.head])]
              && Contents(s) == [s.pushed[s.head]] + Contents(s'))
  {
    hide Run, Next, Accesses, Alone, Gain, ReturnsAfter;
    ReachableInv(capacity, n, actions);
    var s := Run(Init(capacity, n), actions);
    QuiescentEnds(s);
    PopAlone(s, t);
    AloneOutcome(s, CallPop(t), if s.tail == s.head then 2 else 5, steps);
    if s.head < s.tail {
      assert Current(s, s.head) && SlotOk(s, s.head);
    }
  }

  // ------------------------------------------------------- the capacity condition

  /** The queue keeps its indices within a lap and its slots exclusive in every run. */
  ghost predicate SafeWithCapacity(capacity: nat) {
    forall n: nat, actions ::
      Bounded(Run(Init(capacity, n), actions)) && SlotsExclusive(Run(Init(capacity, n), actions))
  }

  /** One slot is not enough: published at p and free for p + 1 are then the same sequence number, and a second
      push overwrites the first. From two slots on, the queue is safe. */
  lemma SafeIffTwoSlots(requested: nat)
    ensures SafeWithCapacity(requested) <==> 2 <= requested
  {
    if 2 <= requested {
      forall n: nat, actions
        ensures Bounded(Run(Init(requested, n), actions)) && SlotsExclusive(Run(Init(requested, n), actions))
      {
        SafeInEveryRun(requested, n, actions);
      }
    } else {
      SecondPushOverwrites(requested);
    }
  }

  lemma SecondPushOverwrites(requested: nat)
    requires requested < 2
    ensures var s := Run(Init(requested, 1), Solo(CallPush(0, 7), 5) + Solo(CallPush(0, 8), 5));
      !Bounded(s) && s.pushed == [7, 8] && s.head == 0 && forall p :: DataAt(s.slots, p) == 8
  {
    hide Run, Next, Accesses, ReturnsAfter;
    var s := Init(requested, 1);
    PushAlone(s, 0, 7);
    SoloOutcome(s, CallPush(0, 7), 5);
    var s1 := Run(s, Solo(CallPush(0, 7), 5));
    assert s1.slots == [Slot(1, 7)];
    PushAlone(s1, 0, 8);
    SoloOutcome(s1, CallPush(0, 8), 5);
    var s2 := Run(s1, Solo(CallPush(0, 8), 5));
    assert s2.slots == [Slot(2, 8)];
    RunConcat(s, Solo(CallPush(0, 7), 5), Solo(CallPush(0, 8), 5));
  }

  lemma RunConcat(s: State, a: seq<Action>, b: seq<Action>)
    requires 0 < s.Capacity()
    ensures Run(s, a + b) == Run(Run(s, a), b)
  {
    if b == [] {
      assert a + b == a;
    } else {
      assert (a + b)[..|a + b| - 1] == a + b[..|b| - 1];
      RunConcat(s, a, b[..|b| - 1]);
    }
  }
}
