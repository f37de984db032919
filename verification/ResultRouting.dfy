/** Getting each result to the request that waits for it: the shared result queue and the 16-slot stash
    (src/server.c:1778-1814, 1870-1886). */
module ResultRouting {
  import opened Common

  const STASH := 16

  /** `fp_result`; `serial` tells results apart as their addresses do. */
  datatype Result = Result(id: nat, serial: nat)

  type Slots = seq<Option<Result>>

  // --------------------------------------------------------------------- the stash

  /** The first slot from i on with a result for the job; |s| when there is none. */
  function SlotOf(s: Slots, jobId: nat, i: nat): (slot: nat)
    requires i <= |s|
    ensures i <= slot <= |s|
    ensures slot < |s| ==> s[slot].Some? && s[slot].value.id == jobId
    ensures forall k :: i <= k < slot ==> s[k] == None || s[k].value.id != jobId
    decreases |s| - i
  {
    if i == |s| || (s[i].Some? && s[i].value.id == jobId) then i else SlotOf(s, jobId, i + 1)
  }

  function FreeSlot(s: Slots, i: nat): (slot: nat)
    requires i <= |s|
    ensures i <= slot <= |s|
    ensures slot < |s| ==> s[slot] == None
    ensures forall k :: i <= k < slot ==> s[k].Some?
    decreases |s| - i
  {
    if i == |s| || s[i] == None then i else FreeSlot(s, i + 1)
  }

  /** What is taken for a job, and the stash left. */
  function TakeFrom(s: Slots, jobId: nat): (Option<Result>, Slots) {
    var slot := SlotOf(s, jobId, 0);
    if slot == |s| then (None, s) else (s[slot], s[slot := None])
  }

  /** What does not fit, and the stash after. */
  function StoreIn(s: Slots, r: Result): (Option<Result>, Slots) {
    var slot := FreeSlot(s, 0);
    if slot == |s| then (Some(r), s) else (None, s[slot := Some(r)])
  }

  function Empty(n: nat): Slots {
    seq(n, _ => None)
  }

  class ResultCache {
    const slots: array<Option<Result>>

    constructor ()
      ensures fresh(slots) && slots[..] == Empty(STASH)
    {
      slots := new Option<Result>[STASH](_ => None);
      new;
      assert slots[..] == Empty(STASH);
    }

    /** `fp_result_cache_take`. */
    method Take(jobId: nat) returns (match_: Option<Result>)
      modifies slots
      ensures (match_, slots[..]) == TakeFrom(old(slots[..]), jobId)
    {
      match_ := None;
      for i := 0 to slots.Length
        invariant match_ == None && slots[..] == old(slots[..])
        invariant SlotOf(slots[..], jobId, i) == SlotOf(slots[..], jobId, 0)
      {
        if slots[i].Some? && slots[i].value.id == jobId {
          match_ := slots[i];
          slots[i] := None;
          break;
        }
      }
    }

    /** `fp_result_cache_store`: the result that is freed, if the stash is full. */
    method Store(result: Result) returns (freed: Option<Result>)
      modifies slots
      ensures (freed, slots[..]) == StoreIn(old(slots[..]), result)
    {
      freed := Some(result);
      for i := 0 to slots.Length
        invariant freed == Some(result) && slots[..] == old(slots[..])
        invariant FreeSlot(slots[..], i) == FreeSlot(slots[..], 0)
      {
        if slots[i] == None {
          slots[i] := Some(result);
          freed := None;
          break;
        }
      }
    }
  }

  // ------------------------------------------------------------ waiters interleaved

  /** Where a call to `fp_wait_for_result` is: before the one look into the stash, before a pop, between a pop of
      another job's result and its storing, or returned. */
  datatype Phase = Looking | Polling | Storing | Returned

  /** `hand` is the result that the call has in its hands or has returned. */
  datatype Waiter = Waiter(jobId: nat, phase: Phase, hand: Option<Result>)

  datatype State = State(
    queue: seq<Result>,
    stash: Slots,
    waiters: seq<Waiter>,
    freed: seq<Result>,
    pushed: seq<Result>)

  datatype Action =
    | Push(r: Result)
    | Arrive(jobId: nat)
    | Look(w: nat)
    | Pop(w: nat)
    | Stash(w: nat)

  predicate InPhase(s: State, w: nat, phase: Phase) {
    w < |s.waiters| && s.waiters[w].phase == phase
  }

  predicate Enabled(s: State, a: Action) {
    match a
    case Push(_) => true
    case Arrive(_) => true
    case Look(w) => InPhase(s, w, Looking)
    case Pop(w) => InPhase(s, w, Polling)
    case Stash(w) => InPhase(s, w, Storing) && s.waiters[w].hand.Some?
  }

  /** One atomic step; a pop from an empty queue changes nothing, and neither does one that fails. */
  function Next(s: State, a: Action): State
    requires Enabled(s, a)
  {
    match a
    case Push(r) => s.(queue := s.queue + [r], pushed := s.pushed + [r])
    case Arrive(jobId) => s.(waiters := s.waiters + [Waiter(jobId, Looking, None)])
    case Look(w) =>
      var (found, stash) := TakeFrom(s.stash, s.waiters[w].jobId);
      s.(stash := stash,
         waiters := s.waiters[w := s.waiters[w].(phase := if found.Some? then Returned else Polling, hand := found)])
    case Pop(w) =>
      if s.queue == [] then s
      else
        var r := s.queue[0];
        var phase := if r.id == s.waiters[w].jobId then Returned else Storing;
        s.(queue := s.queue[1..], waiters := s.waiters[w := s.waiters[w].(phase := phase, hand := Some(r))])
    case Stash(w) =>
      var (over, stash) := StoreIn(s.stash, s.waiters[w].hand.value);
      s.(stash := stash, freed := s.freed + (if over.Some? then [over.value] else []),
         waiters := s.waiters[w := s.waiters[w].(phase := Polling, hand := None)])
  }

  predicate Run(s: State, actions: seq<Action>)
    decreases |actions|
  {
    actions == [] || (Enabled(s, actions[0]) && Run(Next(s, actions[0]), actions[1..]))
  }

  function End(s: State, actions: seq<Action>): State
    requires Run(s, actions)
    decreases |actions|
  {
    if actions == [] then s else End(Next(s, actions[0]), actions[1..])
  }

  function Init(): State {
    State([], Empty(STASH), [], [], [])
  }

  // ------------------------------------------------------------------ conservation

  /** How often r is in the slots. */
  function CountIn(s: Slots, r: Result): nat {
    if s == [] then 0 else One(s[0], r) + CountIn(s[1..], r)
  }

  function One(o: Option<Result>, r: Result): nat {
    if o == Some(r) then 1 else 0
  }

  function Hands(ws: seq<Waiter>): (h: Slots)
    ensures |h| == |ws| && forall i :: 0 <= i < |ws| ==> h[i] == ws[i].hand
  {
    seq(|ws|, i requires 0 <= i < |ws| => ws[i].hand)
  }

  /** r has been pushed as often as it is in the queue, the stash, a waiter's hands or return, or freed. */
  ghost predicate Balanced(s: State, r: Result) {
    multiset(s.pushed)[r] ==
      multiset(s.queue)[r] + CountIn(s.stash, r) + CountIn(Hands(s.waiters), r) + multiset(s.freed)[r]
  }

  ghost predicate HandFits(w: Waiter) {
    match w.phase
    case Looking => w.hand == None
    case Polling => w.hand == None
    case Storing => w.hand.Some? && w.hand.value.id != w.jobId
    case Returned => w.hand.Some? && w.hand.value.id == w.jobId
  }

  ghost predicate Inv(s: State) {
    && (forall r :: Balanced(s, r))
    && (forall w :: 0 <= w < |s.waiters| ==> HandFits(s.waiters[w]))
    && |s.stash| == STASH
  }

  lemma {:induction false} CountUpdate(s: Slots, i: nat, o: Option<Result>, r: Result)
    requires i < |s|
    ensures CountIn(s[i := o], r) + One(s[i], r) == CountIn(s, r) + One(o, r)
  {
    if i == 0 {
      assert s[i := o][1..] == s[1..];
    } else {
      assert s[i := o][1..] == s[1..][i - 1 := o];
      CountUpdate(s[1..], i - 1, o, r);
    }
  }

  lemma {:induction false} CountAppendNone(s: Slots, r: Result)
    ensures CountIn(s + [None], r) == CountIn(s, r)
  {
    if s != [] {
      assert (s + [None])[1..] == s[1..] + [None];
      CountAppendNone(s[1..], r);
    }
  }

  lemma CountsOf(s: Slots, i: nat, r: Result)
    requires i < |s| && s[i] == Some(r)
    ensures CountIn(s, r) >= 1
    ensures forall j :: 0 <= j < |s| && j != i && s[j] == Some(r) ==> CountIn(s, r) >= 2
  {
    CountUpdate(s, i, None, r);
    forall j | 0 <= j < |s| && j != i && s[j] == Some(r) ensures CountIn(s, r) >= 2 {
      CountUpdate(s[i := None], j, None, r);
    }
  }

  lemma HandsUpdate(ws: seq<Waiter>, w: nat, x: Waiter)
    requires w < |ws|
    ensures Hands(ws[w := x]) == Hands(ws)[w := x.hand]
  {
  }

  lemma LookKeeps(s: State, w: nat, r: Result)
    requires Inv(s) && Enabled(s, Look(w))
    ensures Balanced(Next(s, Look(w)), r)
  {
    hide CountIn;
    assert Balanced(s, r) && HandFits(s.waiters[w]);
    var s' := Next(s, Look(w));
    var slot := SlotOf(s.stash, s.waiters[w].jobId, 0);
    HandsUpdate(s.waiters, w, s'.waiters[w]);
    CountUpdate(Hands(s.waiters), w, s'.waiters[w].hand, r);
    if slot < |s.stash| { CountUpdate(s.stash, slot, None, r); }
  }

  lemma PopKeeps(s: State, w: nat, r: Result)
    requires Inv(s) && Enabled(s, Pop(w))
    ensures Balanced(Next(s, Pop(w)), r)
  {
    hide CountIn;
    assert Balanced(s, r) && HandFits(s.waiters[w]);
    if s.queue != [] {
      var s' := Next(s, Pop(w));
      assert s.queue == [s.queue[0]] + s'.queue;
      HandsUpdate(s.waiters, w, s'.waiters[w]);
      CountUpdate(Hands(s.waiters), w, s'.waiters[w].hand, r);
    }
  }

  lemma StashKeeps(s: State, w: nat, r: Result)
    requires Inv(s) && Enabled(s, Stash(w))
    ensures Balanced(Next(s, Stash(w)), r)
  {
    hide CountIn;
    assert Balanced(s, r) && HandFits(s.waiters[w]);
    var s' := Next(s, Stash(w));
    var slot := FreeSlot(s.stash, 0);
    HandsUpdate(s.waiters, w, s'.waiters[w]);
    CountUpdate(Hands(s.waiters), w, None, r);
    if slot < |s.stash| { CountUpdate(s.stash, slot, s.waiters[w].hand, r); }
  }

  lemma ArriveKeeps(s: State, jobId: nat, r: Result)
    requires Inv(s)
    ensures Balanced(Next(s, Arrive(jobId)), r)
  {
    hide CountIn;
    assert Balanced(s, r);
    assert Hands(Next(s, Arrive(jobId)).waiters) == Hands(s.waiters) + [None];
    CountAppendNone(Hands(s.waiters), r);
  }

  lemma StepBalances(s: State, a: Action, r: Result)
    requires Inv(s) && Enabled(s, a)
    ensures Balanced(Next(s, a), r)
  {
    match a
    case Push(_) => assert Balanced(s, r);
    case Arrive(jobId) => ArriveKeeps(s, jobId, r);
    case Look(w) => LookKeeps(s, w, r);
    case Pop(w) => PopKeeps(s, w, r);
    case Stash(w) => StashKeeps(s, w, r);
  }

  lemma StepKeepsInv(s: State, a: Action)
    requires Inv(s) && Enabled(s, a)
    ensures Inv(Next(s, a))
  {
    hide Balanced;
    forall r ensures Balanced(Next(s, a), r) { StepBalances(s, a, r); }
  }

  lemma {:induction false} RunKeepsInv(s: State, actions: seq<Action>)
    requires Inv(s) && Run(s, actions)
    ensures Inv(End(s, actions))
    decreases |actions|
  {
    hide Inv, Next, Enabled;
    if actions != [] {
      StepKeepsInv(s, actions[0]);
      RunKeepsInv(Next(s, actions[0]), actions[1..]);
    }
  }

  lemma {:induction false} NothingInEmpty(n: nat, r: Result)
    ensures CountIn(Empty(n), r) == 0
  {
    if n > 0 {
      assert Empty(n)[1..] == Empty(n - 1);
      NothingInEmpty(n - 1, r);
    }
  }

  lemma ReachableInv(actions: seq<Action>)
    requires Run(Init(), actions)
    ensures Inv(End(Init(), actions))
  {
    forall r ensures Balanced(Init(), r) { NothingInEmpty(STASH, r); }
    RunKeepsInv(Init(), actions);
  }

  // -------------------------------------------------------------------- what follows

  ghost predicate NoRepeats(s: seq<Result>) {
    forall i, j :: 0 <= i < j < |s| ==> s[i] != s[j]
  }

  lemma {:induction false} CountsOnce(s: seq<Result>, r: Result)
    requires NoRepeats(s)
    ensures multiset(s)[r] <= 1
  {
    if s != [] {
      assert s == [s[0]] + s[1..];
      CountsOnce(s[1..], r);
      if s[0] == r { assert forall i :: 0 <= i < |s[1..]| ==> s[1..][i] == s[i + 1] != r; }
    }
  }

  /** Over every interleaving: each result has been pushed exactly as often as it is in the queue, the stash, a
      waiter's hands or return, or among those freed; and what a waiter returns is its own job's. */
  lemma EveryRunConserves(actions: seq<Action>, r: Result)
    requires Run(Init(), actions)
    ensures var s := End(Init(), actions);
      && multiset(s.pushed)[r] ==
           multiset(s.queue)[r] + CountIn(s.stash, r) + CountIn(Hands(s.waiters), r) + multiset(s.freed)[r]
      && forall w: nat :: InPhase(s, w, Returned) ==>
           s.waiters[w].hand.Some? && s.waiters[w].hand.value.id == s.waiters[w].jobId
  {
    ReachableInv(actions);
    var s := End(Init(), actions);
    hide Run, End;
    assert Balanced(s, r);
    forall w: nat | InPhase(s, w, Returned)
      ensures s.waiters[w].hand.Some? && s.waiters[w].hand.value.id == s.waiters[w].jobId
    {
      assert HandFits(s.waiters[w]);
    }
  }

  /** With results pushed once each: none is returned to two waiters, freed and returned, or returned and still in
      the queue or the stash; and every one returned was pushed. */
  lemma NothingReturnedTwice(actions: seq<Action>, w: nat)
    requires Run(Init(), actions) && NoRepeats(End(Init(), actions).pushed)
    requires InPhase(End(Init(), actions), w, Returned)
    ensures var s := End(Init(), actions); var r := s.waiters[w].hand;
      && r.Some? && r.value in s.pushed && r.value !in s.freed && r.value !in s.queue && r !in s.stash
      && forall v :: 0 <= v < |s.waiters| && v != w ==> s.waiters[v].hand != r
  {
    ReachableInv(actions);
    var s := End(Init(), actions);
    hide End, Run, CountIn;
    assert HandFits(s.waiters[w]);
    var r := s.waiters[w].hand.value;
    assert Balanced(s, r);
    CountsOnce(s.pushed, r);
    CountsOf(Hands(s.waiters), w, r);
    assert r in multiset(s.pushed) && r !in multiset(s.freed) && r !in multiset(s.queue);
    forall k | 0 <= k < |s.stash| ensures s.stash[k] != Some(r) {
      if s.stash[k] == Some(r) { CountsOf(s.stash, k, r); }
    }
  }

  ghost predicate StashFull(s: Slots) {
    |s| == 16 && forall k :: 0 <= k < |s| ==> s[k].Some?
  }

  ghost predicate Stashed(s: Slots, r: Result) {
    exists k :: 0 <= k < |s| && s[k] == Some(r)
  }

  /** In every run, a result popped for another job is freed if and only if all 16 slots of the stash are taken;
      otherwise it is in the stash afterwards, in a slot that was free. The waiter goes on polling with empty hands. */
  lemma StashStep(actions: seq<Action>, w: nat)
    requires Run(Init(), actions) && Enabled(End(Init(), actions), Stash(w))
    ensures var s := End(Init(), actions); var s', r := Next(s, Stash(w)), s.waiters[w].hand.value;
      && (if StashFull(s.stash) then s'.freed == s.freed + [r] && s'.stash == s.stash
          else
            && s'.freed == s.freed
            && exists k :: 0 <= k < |s.stash| && s.stash[k] == None && s'.stash == s.stash[k := Some(r)])
      && s'.waiters == s.waiters[w := Waiter(s.waiters[w].jobId, Polling, None)] && s'.queue == s.queue
  {
    ReachableInv(actions);
    hide Run, End, Balanced;
    var s := End(Init(), actions);
    var slot := FreeSlot(s.stash, 0);
    if slot < |s.stash| { assert s.stash[slot] == None; }
  }

  /** In every run, looking into the stash returns a result exactly when there is one for the job, the first such one,
      which leaves the stash; otherwise the waiter starts polling. */
  lemma LookStep(actions: seq<Action>, w: nat)
    requires Run(Init(), actions) && Enabled(End(Init(), actions), Look(w))
    ensures var s := End(Init(), actions); var s', job := Next(s, Look(w)), s.waiters[w].jobId;
      && (InPhase(s', w, Returned) <==> exists r: Result :: r.id == job && Stashed(s.stash, r))
      && s'.freed == s.freed && s'.queue == s.queue
      && if InPhase(s', w, Returned) then
           exists k :: FirstFor(s.stash, job, k) && s'.stash == s.stash[k := None] &&
                       s'.waiters == s.waiters[w := Waiter(job, Returned, s.stash[k])]
         else s'.stash == s.stash && s'.waiters == s.waiters[w := Waiter(job, Polling, None)]
  {
    hide Run, End;
    var s := End(Init(), actions);
    var job := s.waiters[w].jobId;
    var slot := SlotOf(s.stash, job, 0);
    if slot < |s.stash| {
      assert Stashed(s.stash, s.stash[slot].value);
      assert FirstFor(s.stash, job, slot);
    }
  }

  /** Slot k holds the first result for the job. */
  ghost predicate FirstFor(s: Slots, job: nat, k: int) {
    && 0 <= k < |s| && s[k].Some? && s[k].value.id == job
    && forall j :: 0 <= j < k ==> s[j] == None || s[j].value.id != job
  }

  /** In every run, a pop takes the oldest result of the queue, if any, and returns it exactly when it is the job's
      own. */
  lemma PopStep(actions: seq<Action>, w: nat)
    requires Run(Init(), actions) && Enabled(End(Init(), actions), Pop(w))
    ensures var s := End(Init(), actions); var s', job := Next(s, Pop(w)), s.waiters[w].jobId;
      if s.queue == [] then s' == s
      else
        var r := s.queue[0];
        && s.queue == [r] + s'.queue && s'.stash == s.stash && s'.freed == s.freed
        && s'.waiters == s.waiters[w := Waiter(job, if r.id == job then Returned else Storing, Some(r))]
  {
    hide Run, End;
  }

  /** A result stays in the stash until it is returned to a waiter for its job. */
  lemma StashedUntilReturned(s: State, a: Action, r: Result)
    requires Enabled(s, a) && Stashed(s.stash, r)
    ensures
      || Stashed(Next(s, a).stash, r)
      || (a.Look? && s.waiters[a.w].jobId == r.id && Next(s, a).waiters[a.w] == Waiter(r.id, Returned, Some(r)))
  {
    var k :| 0 <= k < |s.stash| && s.stash[k] == Some(r);
    if !(a.Look? && SlotOf(s.stash, s.waiters[a.w].jobId, 0) == k) {
      assert Next(s, a).stash[k] == Some(r);
    }
  }

  /** A result is given up exactly when it finds the stash full. */
  lemma FreedExactlyWhenFull(s: Slots, r: Result)
    ensures StoreIn(s, r).0 == Some(r) <==> forall k :: 0 <= k < |s| ==> s[k].Some?
    ensures StoreIn(s, r).0.None? ==> TakeFrom(StoreIn(s, r).1, r.id).0.Some?
  {
    if StoreIn(s, r).0.None? {
      var s', slot := StoreIn(s, r).1, FreeSlot(s, 0);
      assert s'[slot] == Some(r);
    }
  }
}
