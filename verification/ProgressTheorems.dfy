/** Every run of the progress registry, over all interleavings of its calls. */
module ProgressTheorems {
  import opened ProgressChannel
  import opened ProgressRegistry
  import opened ProgressLifecycle

  ghost predicate LegalRun(w: World, ops: seq<Op>)
    requires w.table != []
    decreases |ops|
  {
    ops == [] || (Legal(w, ops[0]) && LegalRun(Apply(w, ops[0]), ops[1..]))
  }

  /** A legal run in which no job that is in the table is registered again, and no reference is counted to a channel
      whose last one has been dropped. */
  ghost predicate Run(w: World, ops: seq<Op>)
    requires w.table != []
    decreases |ops|
  {
    ops == [] || (Allowed(w, ops[0]) && Run(Apply(w, ops[0]), ops[1..]))
  }

  function End(w: World, ops: seq<Op>): (e: World)
    requires w.table != []
    ensures |e.table| == |w.table|
    decreases |ops|
  {
    if ops == [] then w else End(Apply(w, ops[0]), ops[1..])
  }

  /** How many references to c the operations give out, and how many they give back. */
  function Given(w: World, ops: seq<Op>, c: Channel): nat
    requires w.table != []
    decreases |ops|
  {
    if ops == [] then 0
    else (if Granted(w, ops[0]) == c then 1 else 0) + Given(Apply(w, ops[0]), ops[1..], c)
  }

  function GivenBack(ops: seq<Op>, c: Channel): nat {
    if ops == [] then 0 else (if ops[0] == Op.Drop(c) then 1 else 0) + GivenBack(ops[1..], c)
  }

  lemma {:induction false} RunKeepsInv(w: World, ops: seq<Op>)
    requires Inv(w)
    requires Run(w, ops)
    ensures Inv(End(w, ops))
    decreases |ops|
  {
    hide Inv, Apply, Legal, Bad;
    assert w.table != [] by { InvTable(w); }
    if ops != [] {
      StepKeepsInv(w, ops[0]);
      RunKeepsInv(Apply(w, ops[0]), ops[1..]);
    }
  }

  lemma StepCounts(w: World, op: Op, c: Channel)
    requires w.table != [] && Legal(w, op)
    ensures Refs(Apply(w, op), c) ==
      Refs(w, c) + (if Granted(w, op) == c then 1 else 0) - (if op == Op.Drop(c) then 1 else 0)
  {
    hide Register, Forget, SlotFor, Find, IsLive;
  }

  lemma {:induction false} RefsAreGivenMinusBack(w: World, ops: seq<Op>, c: Channel)
    requires w.table != [] && LegalRun(w, ops)
    ensures Refs(End(w, ops), c) == Refs(w, c) + Given(w, ops, c) - GivenBack(ops, c)
    decreases |ops|
  {
    hide Apply, Legal, Granted;
    if ops != [] {
      StepCounts(w, ops[0], c);
      RefsAreGivenMinusBack(Apply(w, ops[0]), ops[1..], c);
    }
  }

  lemma {:induction false} RunIsLegal(w: World, ops: seq<Op>)
    requires w.table != [] && Run(w, ops)
    ensures LegalRun(w, ops)
    decreases |ops|
  {
    hide Apply, Legal, Bad;
    if ops != [] { RunIsLegal(Apply(w, ops[0]), ops[1..]); }
  }

  lemma {:induction false} RunConcat(w: World, a: seq<Op>, b: seq<Op>)
    requires w.table != []
    ensures End(w, a + b) == End(End(w, a), b)
    ensures Run(w, a) && Run(End(w, a), b) ==> Run(w, a + b)
    decreases |a|
  {
    hide Apply, Allowed;
    if a == [] {
      assert a + b == b;
    } else {
      assert (a + b)[1..] == a[1..] + b;
      RunConcat(Apply(w, a[0]), a[1..], b);
    }
  }

  lemma {:induction false} Prefixes(w: World, ops: seq<Op>, n: nat)
    requires w.table != [] && n <= |ops|
    ensures LegalRun(w, ops) ==> LegalRun(w, ops[..n])
    ensures Run(w, ops) ==> Run(w, ops[..n])
    ensures n < |ops| ==> End(w, ops[..n + 1]) == Apply(End(w, ops[..n]), ops[n])
    ensures n < |ops| && LegalRun(w, ops) ==> Legal(End(w, ops[..n]), ops[n])
    decreases |ops|
  {
    hide Apply, Legal, Bad;
    if n > 0 {
      assert ops[..n][1..] == ops[1..][..n - 1];
      assert n < |ops| ==> ops[..n + 1][1..] == ops[1..][..n];
      Prefixes(Apply(w, ops[0]), ops[1..], n - 1);
    } else if ops != [] {
      assert ops[..1][1..] == [];
    }
  }

  /** Where a legal run first goes wrong. */
  lemma {:induction false} FirstBad(w: World, ops: seq<Op>) returns (n: nat)
    requires w.table != [] && LegalRun(w, ops) && !Run(w, ops)
    ensures n < |ops| && Run(w, ops[..n]) && Bad(End(w, ops[..n]), ops[n])
    decreases |ops|
  {
    hide Apply, Legal, Bad;
    if Bad(w, ops[0]) {
      n := 0;
      assert ops[..0] == [];
    } else {
      n := FirstBad(Apply(w, ops[0]), ops[1..]);
      n := n + 1;
      assert ops[..n][1..] == ops[1..][..n - 1];
    }
  }

  // ------------------------------------------------- references against the registry

  /** What a channel's holders rely on: it is found for its job exactly while not all references given out have been
      given back or its last holder is about to take it out; it is on its way out or destroyed exactly when all have
      been given back, and destroyed once that is through. */
  ghost predicate SettledFor(w: World, given: nat, back: nat, c: Channel) {
    && back <= given
    && (Find(w.table, c.jobId) == c <==> back < given || c in w.dropped)
    && (c in w.dropped || c in w.unlinked || c in w.destroyed <==> back == given)
    && (c in w.destroyed ==> c !in w.dropped && c !in w.unlinked)
  }

  /** The same for every channel, and none is destroyed twice. */
  ghost predicate Settled(w0: World, ops: seq<Op>)
    requires w0.table != []
  {
    var w := End(w0, ops);
    && NoRepeats(w.destroyed) && (forall i :: 0 <= i < |w.destroyed| ==> w.destroyed[i] in w.refs)
    && forall c :: c in w.refs ==> SettledFor(w, Given(w0, ops, c), GivenBack(ops, c), c)
  }

  lemma InOrderSettles(w: World, c: Channel, given: nat, back: nat)
    requires Inv(w) && c in w.refs && Refs(w, c) == given - back
    ensures SettledFor(w, given, back, c)
  {
    assert InOrder(w, c);
    FoundExactlyWhileHeld(w, c);
    hide Find, InTable, Distinct, Labelled;
  }

  lemma RunSettles(capacity: nat, ops: seq<Op>)
    requires 0 < capacity && Run(Fresh(capacity), ops)
    ensures Settled(Fresh(capacity), ops)
  {
    hide Run, LegalRun, End, Given, GivenBack, SettledFor, Inv;
    var w0 := Fresh(capacity);
    var w := End(w0, ops);
    FreshInv(capacity);
    RunIsLegal(w0, ops);
    RunKeepsInv(w0, ops);
    InvDestroyed(w);
    forall c | c in w.refs ensures SettledFor(w, Given(w0, ops, c), GivenBack(ops, c), c) {
      RefsAreGivenMinusBack(w0, ops, c);
      NothingBefore(capacity, c);
      InOrderSettles(w, c, Given(w0, ops, c), GivenBack(ops, c));
    }
  }

  lemma InvDestroyed(w: World)
    requires Inv(w)
    ensures NoRepeats(w.destroyed) && forall i :: 0 <= i < |w.destroyed| ==> w.destroyed[i] in w.refs
  {
  }

  lemma NothingBefore(capacity: nat, c: Channel)
    ensures Refs(Fresh(capacity), c) == 0
  {
  }

  /** After a second registration two channels that may be found are there for one job, and a lookup finds one. */
  lemma DoubleUnsettles(w: World, op: Op, given: map<Channel, nat>, back: map<Channel, nat>)
    requires Inv(w) && Legal(w, op) && Reregisters(w, op)
    requires var w' := Apply(w, op);
      forall c :: c in w'.refs ==> c in given && c in back && Refs(w', c) + back[c] == given[c]
    ensures exists c :: c in Apply(w, op).refs && !SettledFor(Apply(w, op), given[c], back[c], c)
  {
    var w' := Apply(w, op);
    var k :| 0 <= k < |w.table| && Live(w.table[k], op.id);
    var d, c := w.table[k].channel, op.c;
    assert InTable(w.table, d);
    assert d in w.refs && InOrder(w, d);
    hide Find, Register, SlotFor, InTable, Distinct;
    assert Refs(w', d) > 0 || d in w'.dropped;
    assert SettledFor(w', given[c], back[c], c) ==> Find(w'.table, op.id) == c;
    assert SettledFor(w', given[d], back[d], d) ==> Find(w'.table, op.id) == d;
  }

  lemma RevivalUnsettles(w: World, op: Op, given: nat, back: nat)
    requires Inv(w) && Legal(w, op) && Revives(w, op) && Refs(Apply(w, op), op.c) == given - back
    ensures !SettledFor(Apply(w, op), given, back, op.c)
  {
    hide Find, InTable, Distinct, Labelled;
    RevivalBreaksInv(w, op);
  }

  lemma BadUnsettles(capacity: nat, ops: seq<Op>, n: nat)
    requires 0 < capacity && n < |ops| && LegalRun(Fresh(capacity), ops) && Run(Fresh(capacity), ops[..n])
    requires Bad(End(Fresh(capacity), ops[..n]), ops[n])
    ensures !Settled(Fresh(capacity), ops[..n + 1])
  {
    var w0 := Fresh(capacity);
    var w, upTo := End(w0, ops[..n]), ops[..n + 1];
    FreshInv(capacity);
    RunKeepsInv(w0, ops[..n]);
    Prefixes(w0, ops, n);
    Prefixes(w0, ops, n + 1);
    var w' := Apply(w, ops[n]);
    assert End(w0, upTo) == w';
    hide Run, LegalRun, End, Given, GivenBack, Inv, Apply, Legal, Reregisters, SettledFor, Revives;
    forall c | c in w'.refs ensures Refs(w', c) == Given(w0, upTo, c) - GivenBack(upTo, c) {
      RefsAreGivenMinusBack(w0, upTo, c);
      NothingBefore(capacity, c);
    }
    if Reregisters(w, ops[n]) {
      var given: map<Channel, nat> := map c | c in w'.refs :: Given(w0, upTo, c);
      var back: map<Channel, nat> := map c | c in w'.refs :: GivenBack(upTo, c);
      DoubleUnsettles(w, ops[n], given, back);
    } else {
      TakenIsKnown(w, ops[n]);
      RevivalUnsettles(w, ops[n], Given(w0, upTo, ops[n].c), GivenBack(upTo, ops[n].c));
    }
  }

  lemma TakenIsKnown(w: World, op: Op)
    requires w.table != [] && Revives(w, op)
    ensures op.Take? && op.c in Apply(w, op).refs
  {
  }

  /** Over every legal run from an empty registry, the above holds after every step if and only if no job that is in the
      table is registered again and no reference is counted to a channel whose last one has been dropped. */
  lemma DestroyedOnceExactlyWhen(capacity: nat, ops: seq<Op>)
    requires 0 < capacity && LegalRun(Fresh(capacity), ops)
    ensures (forall n :: 0 <= n <= |ops| ==> Settled(Fresh(capacity), ops[..n])) <==> Run(Fresh(capacity), ops)
  {
    hide Settled, LegalRun, Run, Bad, End;
    var w0 := Fresh(capacity);
    if Run(w0, ops) {
      forall n | 0 <= n <= |ops| ensures Settled(w0, ops[..n]) {
        Prefixes(w0, ops, n);
        RunSettles(capacity, ops[..n]);
      }
    } else {
      var n := FirstBad(w0, ops);
      BadUnsettles(capacity, ops, n);
    }
  }

  // --------------------------------------------------- what a wrong step can lead to

  /** No channel is destroyed twice, and one that has been destroyed is not found, nor held by anyone. */
  ghost predicate Sound(w: World) {
    && NoRepeats(w.destroyed)
    && (forall id: nat :: Find(w.table, id) == null || Find(w.table, id) !in w.destroyed)
    && forall i :: 0 <= i < |w.destroyed| ==> Refs(w, w.destroyed[i]) == 0
  }

  lemma InvIsSound(w: World)
    requires Inv(w)
    ensures Sound(w)
  {
    hide Distinct, Labelled;
    forall id: nat ensures Find(w.table, id) == null || Find(w.table, id) !in w.destroyed {
      FoundIsInTable(w.table, id);
      if Find(w.table, id) != null {
        TableIsKnown(w, Find(w.table, id));
        assert InOrder(w, Find(w.table, id));
      }
    }
    forall i | 0 <= i < |w.destroyed| ensures Refs(w, w.destroyed[i]) == 0 {
      assert InOrder(w, w.destroyed[i]);
    }
  }

  function Drops(c: Channel, n: nat): seq<Op> {
    seq(n, _ => Op.Drop(c))
  }

  /** Giving back all references to a channel, one after the other. */
  lemma {:induction false} DropAll(w: World, c: Channel, n: nat)
    requires w.table != [] && 0 < n == Refs(w, c)
    ensures Run(w, Drops(c, n))
    ensures End(w, Drops(c, n)) == w.(refs := w.refs[c := 0], dropped := w.dropped + multiset{c})
    decreases n
  {
    var ops := Drops(c, n);
    assert ops[0] == Op.Drop(c) && ops[1..] == Drops(c, n - 1);
    var w' := Apply(w, Op.Drop(c));
    if n > 1 {
      assert w'.refs[c := 0] == w.refs[c := 0];
      DropAll(w', c, n - 1);
    } else {
      assert ops[1..] == [];
    }
  }

  lemma RunStep(w: World, op: Op)
    requires w.table != [] && Allowed(w, op)
    ensures Run(w, [op]) && End(w, [op]) == Apply(w, op)
  {
    hide Apply, Legal, Bad;
    var w', rest := Apply(w, op), [op][1..];
    assert rest == [] && Run(w', rest) && End(w', rest) == w';
  }

  /** The rest of a release. */
  lemma FinishRelease(w: World, c: Channel)
    requires w.table != [] && c in w.dropped
    ensures var ops := [Op.Unlink(c), Op.Free(c)]; var e := End(w, ops);
      && Run(w, ops) && e.table == Forget(w.table, c.jobId) && e.refs == w.refs && e.destroyed == w.destroyed + [c]
      && e.dropped == w.dropped - multiset{c} && e.looked == w.looked
  {
    hide Forget, Run, End;
    var w1 := Apply(w, Op.Unlink(c));
    assert c in w1.unlinked;
    RunStep(w, Op.Unlink(c));
    RunStep(w1, Op.Free(c));
    RunConcat(w, [Op.Unlink(c)], [Op.Free(c)]);
    assert [Op.Unlink(c)] + [Op.Free(c)] == [Op.Unlink(c), Op.Free(c)];
  }

  /** A channel that is held, or on its way out of the table, can be released to the end. */
  function ReleaseOps(w: World, c: Channel): seq<Op> {
    (if Refs(w, c) > 0 then Drops(c, Refs(w, c)) else []) + [Op.Unlink(c), Op.Free(c)]
  }

  lemma ReleaseAll(w: World, c: Channel)
    requires w.table != [] && (Refs(w, c) > 0 || c in w.dropped)
    ensures var ops := ReleaseOps(w, c); var e := End(w, ops);
      Run(w, ops) && e.table == Forget(w.table, c.jobId) && e.destroyed == w.destroyed + [c]
  {
    if Refs(w, c) > 0 {
      var n := Refs(w, c);
      DropAll(w, c, n);
      hide Run, End, Forget;
      FinishRelease(End(w, Drops(c, n)), c);
      RunConcat(w, Drops(c, n), [Op.Unlink(c), Op.Free(c)]);
    } else {
      FinishRelease(w, c);
      assert ReleaseOps(w, c) == [Op.Unlink(c), Op.Free(c)];
    }
  }

  /** The table with the new channel in `slot` beside the older one in `k`: whichever comes later stays behind when it
      is released to the end, because the other one's entry is forgotten. */
  lemma LaterStaysBehind(w: World, k: nat, slot: nat, later: nat, id: nat)
    requires k < |w.table| && slot < |w.table| && k != slot && later == (if k < slot then slot else k) && id != 0
    requires Live(w.table[k], id) && Live(w.table[slot], id)
    requires forall i :: 0 <= i < |w.table| && i != k && i != slot ==> !Live(w.table[i], id)
    requires w.table[later].channel.jobId == id
    requires Refs(w, w.table[later].channel) > 0 || w.table[later].channel in w.dropped
    ensures var x := w.table[later].channel; var ops := ReleaseOps(w, x); var e := End(w, ops);
      Run(w, ops) && x in e.destroyed && Find(e.table, id) == x
  {
    var x := w.table[later].channel;
    var ops := ReleaseOps(w, x);
    ReleaseAll(w, x);
    hide Run, End, ReleaseOps;
    var first := if k < slot then k else slot;
    assert SlotOf(w.table, id, 0) == first;
    var t := Forget(w.table, id);
    hide SlotOf, Forget;
    assert t == w.table[first := FREE] && t[later].channel == x;
    assert End(w, ops).destroyed[|w.destroyed|] == x;
    LiveIsFound(t, id, later);
    var j :| 0 <= j < |t| && Live(t[j], id) && t[j].channel == Find(t, id);
    assert j == later;
  }

  /** Registering again a job that is in the table leads to a destroyed channel that lookups return. */
  lemma DoubleLeavesOne(w: World, op: Op) returns (ops: seq<Op>)
    requires Inv(w) && Legal(w, op) && Reregisters(w, op)
    ensures Run(Apply(w, op), ops) && !Sound(End(Apply(w, op), ops))
  {
    var w', id := Apply(w, op), op.id;
    var k :| 0 <= k < |w.table| && Live(w.table[k], id);
    var slot := SlotFor(w.table, id);
    var d := w.table[k].channel;
    assert InTable(w.table, d);
    assert InOrder(w, d);
    assert Refs(w', d) > 0 || d in w'.dropped;
    assert Refs(w', op.c) == 1;
    hide SlotFor, Run, End, Find;
    assert forall i :: 0 <= i < |w'.table| && i != k && i != slot ==> !Live(w'.table[i], id);
    var later := if k < slot then slot else k;
    LaterStaysBehind(w', k, slot, later, id);
    ops := ReleaseOps(w', w'.table[later].channel);
  }

  /** Counting a reference to a channel whose last one has been dropped leads to a destroyed channel that is held. */
  lemma RevivalLeavesOne(w: World, op: Op) returns (ops: seq<Op>)
    requires Inv(w) && Legal(w, op) && Revives(w, op)
    ensures Run(Apply(w, op), ops) && !Sound(End(Apply(w, op), ops))
  {
    RevivalBreaksInv(w, op);
    var w', c := Apply(w, op), op.c;
    hide Inv, Find, Apply, InOrder;
    if c in w'.destroyed {
      ops := [];
    } else if c in w'.unlinked {
      ops := [Op.Free(c)];
      JustFree(w', c);
      HeldIsUnsound(End(w', ops), c);
    } else {
      ops := [Op.Unlink(c), Op.Free(c)];
      FinishRelease(w', c);
      HeldIsUnsound(End(w', ops), c);
    }
  }

  lemma JustFree(w: World, c: Channel)
    requires w.table != [] && c in w.unlinked
    ensures var e := End(w, [Op.Free(c)]); Run(w, [Op.Free(c)]) && e.destroyed == w.destroyed + [c] && e.refs == w.refs
  {
    assert [Op.Free(c)][1..] == [];
  }

  lemma HeldIsUnsound(w: World, c: Channel)
    requires Refs(w, c) > 0 && |w.destroyed| > 0 && w.destroyed[|w.destroyed| - 1] == c
    ensures !Sound(w)
  {
  }

  /** A legal operation is safe (however it goes on after it, with no further wrong step, no channel is destroyed twice,
      or found or held once destroyed) if and only if it neither registers a job that is in the table nor counts a
      reference to a channel whose last one has been dropped. */
  lemma SafeExactlyWhen(w: World, op: Op)
    requires Inv(w) && Legal(w, op)
    ensures w.table != []
    ensures (forall ops :: Run(Apply(w, op), ops) ==> Sound(End(Apply(w, op), ops))) <==> !Bad(w, op)
  {
    hide Inv, Run, End, Sound, Legal, Reregisters, Revives, Apply;
    InvTable(w);
    var w' := Apply(w, op);
    if Reregisters(w, op) {
      var ops := DoubleLeavesOne(w, op);
    } else if Revives(w, op) {
      var ops := RevivalLeavesOne(w, op);
    } else {
      StepKeepsInv(w, op);
      forall ops | Run(w', ops) ensures Sound(End(w', ops)) {
        RunKeepsInv(w', ops);
        InvIsSound(End(w', ops));
      }
    }
  }

  /** Over every legal run: no part of it has a continuation without wrong steps in which a channel is destroyed twice,
      or found or held once destroyed, if and only if the run itself takes no wrong step. */
  lemma SafeRunExactlyWhen(capacity: nat, ops: seq<Op>)
    requires 0 < capacity && LegalRun(Fresh(capacity), ops)
    ensures
      (forall n, more :: 0 <= n <= |ops| && Run(End(Fresh(capacity), ops[..n]), more) ==>
         Sound(End(End(Fresh(capacity), ops[..n]), more))) <==>
      Run(Fresh(capacity), ops)
  {
    hide Inv, LegalRun, Run, End, Sound, Bad, Legal, Apply;
    var w0 := Fresh(capacity);
    FreshInv(capacity);
    if Run(w0, ops) {
      forall n, more | 0 <= n <= |ops| && Run(End(w0, ops[..n]), more) ensures Sound(End(End(w0, ops[..n]), more)) {
        Prefixes(w0, ops, n);
        RunKeepsInv(w0, ops[..n]);
        RunKeepsInv(End(w0, ops[..n]), more);
        InvIsSound(End(End(w0, ops[..n]), more));
      }
    } else {
      var n := FirstBad(w0, ops);
      RunKeepsInv(w0, ops[..n]);
      Prefixes(w0, ops, n);
      SafeExactlyWhen(End(w0, ops[..n]), ops[n]);
      var more :| Run(Apply(End(w0, ops[..n]), ops[n]), more) && !Sound(End(Apply(End(w0, ops[..n]), ops[n]), more));
      assert End(w0, ops[..n + 1]) == Apply(End(w0, ops[..n]), ops[n]);
    }
  }

  // --------------------------------------------------------------- three such runs

  /** The run is legal and leads from w to e. */
  ghost predicate Leads(w: World, ops: seq<Op>, e: World) {
    w.table != [] && LegalRun(w, ops) && End(w, ops) == e
  }

  lemma {:induction false} LeadsOn(w: World, a: seq<Op>, m: World, b: seq<Op>, e: World)
    requires Leads(w, a, m) && Leads(m, b, e)
    ensures Leads(w, a + b, e)
    decreases |a|
  {
    hide Apply, Legal;
    if a == [] {
      assert a + b == b;
    } else {
      assert (a + b)[1..] == a[1..] + b;
      LeadsOn(Apply(w, a[0]), a[1..], m, b, e);
    }
  }

  /** Three steps through given worlds. */
  lemma ThreeSteps(w: World, a: Op, w1: World, b: Op, w2: World, c: Op, e: World)
    requires w.table != [] && w1.table != [] && w2.table != []
    requires Legal(w, a) && Apply(w, a) == w1 && Legal(w1, b) && Apply(w1, b) == w2 && Legal(w2, c) && Apply(w2, c) == e
    ensures Leads(w, [a, b, c], e)
  {
    hide Apply, Legal;
    assert [a, b, c][1..] == [b, c] && [b, c][1..] == [c] && [c][1..] == [];
    assert LegalRun(w2, [c]) && End(w2, [c]) == e;
    assert LegalRun(w1, [b, c]) && End(w1, [b, c]) == e;
  }

  lemma FirstRegistered(c1: Channel)
    ensures SlotFor(Unused(2), 1) == 1 && Register(Unused(2), 1, c1) == [FREE, Entry(1, c1)]
  {
    assert FreeSlot(Unused(2), 1, 0) == 1;
  }

  lemma SecondRegistered(c1: Channel, c2: Channel)
    ensures var t := [FREE, Entry(1, c1)]; SlotFor(t, 1) == 0 && Register(t, 1, c2) == [Entry(1, c2), Entry(1, c1)]
  {
    var t := [FREE, Entry(1, c1)];
    assert t[0].channel == null && t[1].channel != null;
    NoFreeSlotMeansFull(t, 1);
    hide FreeSlot;
    assert SlotFor(t, 1) == 0;
  }

  lemma FirstForgotten(c1: Channel, c2: Channel)
    ensures var t := Forget([Entry(1, c2), Entry(1, c1)], 1); t == [FREE, Entry(1, c1)] && Find(t, 1) == c1
  {
    assert SlotOf([Entry(1, c2), Entry(1, c1)], 1, 0) == 0;
    assert FindFrom([FREE, Entry(1, c1)], 1, 0) == c1;
  }

  lemma RegisteredTwice(c1: Channel, c2: Channel)
    requires c1 != c2 && c1.jobId == 1 && c2.jobId == 1
    ensures Leads(Fresh(2), [Create(1, c1), Create(1, c2), Op.Drop(c1)],
                  World([Entry(1, c2), Entry(1, c1)], map[c1 := 0, c2 := 1], multiset{}, multiset{c1}, multiset{}, []))
  {
    FirstRegistered(c1);
    SecondRegistered(c1, c2);
    hide Register, Forget, Find, SlotFor, Leads;
    var w1 := World([FREE, Entry(1, c1)], map[c1 := 1], multiset{}, multiset{}, multiset{}, []);
    var t2 := [Entry(1, c2), Entry(1, c1)];
    var w2 := World(t2, map[c1 := 1, c2 := 1], multiset{}, multiset{}, multiset{}, []);
    var w3 := World(t2, map[c1 := 0, c2 := 1], multiset{}, multiset{c1}, multiset{}, []);
    assert Apply(Fresh(2), Create(1, c1)) == w1;
    assert Apply(w1, Create(1, c2)) == w2;
    assert Apply(w2, Op.Drop(c1)) == w3;
    ThreeSteps(Fresh(2), Create(1, c1), w1, Create(1, c2), w2, Op.Drop(c1), w3);
  }

  lemma FinishLeads(w: World, c: Channel)
    requires w.table != [] && c in w.dropped
    ensures var ops := [Op.Unlink(c), Op.Free(c)]; var e := End(w, ops);
      && Leads(w, ops, e)
      && e.table == Forget(w.table, c.jobId) && e.refs == w.refs && e.destroyed == w.destroyed + [c]
      && e.dropped == w.dropped - multiset{c} && e.looked == w.looked
  {
    hide Run, LegalRun, End, Forget;
    FinishRelease(w, c);
    RunIsLegal(w, [Op.Unlink(c), Op.Free(c)]);
  }

  lemma OneStep(w: World, op: Op)
    requires w.table != [] && Legal(w, op)
    ensures Leads(w, [op], Apply(w, op))
  {
    hide Apply, Legal;
    var w', rest := Apply(w, op), [op][1..];
    assert rest == [] && LegalRun(w', rest) && End(w', rest) == w';
  }

  /** With two slots, a job registered twice and its first channel released: a lookup returns the destroyed channel. */
  lemma ReleasedButFound(c1: Channel, c2: Channel)
    requires c1 != c2 && c1.jobId == 1 && c2.jobId == 1
    ensures var ops := [Create(1, c1), Create(1, c2), Op.Drop(c1)] + [Op.Unlink(c1), Op.Free(c1)];
      var e := End(Fresh(2), ops); LegalRun(Fresh(2), ops) && e.destroyed == [c1] && Find(e.table, 1) == c1
  {
    RegisteredTwice(c1, c2);
    FirstForgotten(c1, c2);
    var a, b := [Create(1, c1), Create(1, c2), Op.Drop(c1)], [Op.Unlink(c1), Op.Free(c1)];
    var m := World([Entry(1, c2), Entry(1, c1)], map[c1 := 0, c2 := 1], multiset{}, multiset{c1}, multiset{}, []);
    hide LegalRun, End, Find, Forget;
    FinishLeads(m, c1);
    LeadsOn(Fresh(2), a, m, b, End(m, b));
  }

  lemma OneSlot(c: Channel)
    ensures SlotFor(Unused(1), 1) == 0 && Register(Unused(1), 1, c) == [Entry(1, c)] && Find([Entry(1, c)], 1) == c
    ensures Forget([Entry(1, c)], 1) == Unused(1)
  {
    assert FreeSlot(Unused(1), 0, 0) == 0;
    assert FindFrom([Entry(1, c)], 1, 0) == c;
    assert SlotOf([Entry(1, c)], 1, 0) == 0;
  }

  /** The world with one channel in the only slot. */
  function Single(c: Channel, count: int, looked: multiset<Channel>, dropped: multiset<Channel>): World {
    World([Entry(1, c)], map[c := count], looked, dropped, multiset{}, [])
  }

  lemma FoundWhenDropped(c: Channel)
    requires c.jobId == 1
    ensures Leads(Fresh(1), [Create(1, c), Op.Drop(c), Look(1)], Single(c, 0, multiset{c}, multiset{c}))
  {
    OneSlot(c);
    hide Register, Forget, Find, SlotFor, Leads;
    var w1, w2 := Single(c, 1, multiset{}, multiset{}), Single(c, 0, multiset{}, multiset{c});
    assert Apply(Fresh(1), Create(1, c)) == w1;
    assert Apply(w1, Op.Drop(c)) == w2;
    assert Apply(w2, Look(1)) == Single(c, 0, multiset{c}, multiset{c});
    ThreeSteps(Fresh(1), Create(1, c), w1, Op.Drop(c), w2, Look(1), Single(c, 0, multiset{c}, multiset{c}));
  }

  /** An acquire that finds the channel after its last reference has been dropped and before it is taken out of the
      table: the channel is destroyed while it is held, and then a second time. */
  lemma AcquiredWhileReleased(c: Channel)
    requires c.jobId == 1
    ensures var ops := [Create(1, c), Op.Drop(c), Look(1)] + [Take(c)] + [Op.Unlink(c), Op.Free(c)];
      var more := ops + [Op.Drop(c)] + [Op.Unlink(c), Op.Free(c)];
      && LegalRun(Fresh(1), ops) && End(Fresh(1), ops).destroyed == [c] && Refs(End(Fresh(1), ops), c) == 1
      && LegalRun(Fresh(1), more) && End(Fresh(1), more).destroyed == [c, c]
  {
    FoundWhenDropped(c);
    var a, b := [Create(1, c), Op.Drop(c), Look(1)], [Op.Unlink(c), Op.Free(c)];
    var w0, w1 := Fresh(1), Single(c, 0, multiset{c}, multiset{c});
    var w2 := Apply(w1, Take(c));
    hide LegalRun, End, Forget;
    OneStep(w1, Take(c));
    LeadsOn(w0, a, w1, [Take(c)], w2);
    FinishLeads(w2, c);
    var w3 := End(w2, b);
    LeadsOn(w0, a + [Take(c)], w2, b, w3);
    assert Refs(w3, c) == 1 && w3.dropped == multiset{};
    var w4 := Apply(w3, Op.Drop(c));
    OneStep(w3, Op.Drop(c));
    LeadsOn(w0, a + [Take(c)] + b, w3, [Op.Drop(c)], w4);
    FinishLeads(w4, c);
    LeadsOn(w0, a + [Take(c)] + b + [Op.Drop(c)], w4, b, End(w4, b));
  }

  lemma FoundThenDropped(c: Channel)
    requires c.jobId == 1
    ensures Leads(Fresh(1), [Create(1, c), Look(1), Op.Drop(c)], Single(c, 0, multiset{c}, multiset{c}))
  {
    OneSlot(c);
    hide Register, Forget, Find, SlotFor, Leads;
    var w1, w2 := Single(c, 1, multiset{}, multiset{}), Single(c, 1, multiset{c}, multiset{});
    assert Apply(Fresh(1), Create(1, c)) == w1;
    assert Apply(w1, Look(1)) == w2;
    assert Apply(w2, Op.Drop(c)) == Single(c, 0, multiset{c}, multiset{c});
    ThreeSteps(Fresh(1), Create(1, c), w1, Look(1), w2, Op.Drop(c), Single(c, 0, multiset{c}, multiset{c}));
  }

  /** An acquire that finds the channel while it is held and counts its reference only after it is gone. */
  lemma CountedWhenGone(c: Channel)
    requires c.jobId == 1
    ensures var ops := [Create(1, c), Look(1), Op.Drop(c)] + [Op.Unlink(c), Op.Free(c)] + [Take(c)];
      LegalRun(Fresh(1), ops) && End(Fresh(1), ops).destroyed == [c] && Refs(End(Fresh(1), ops), c) == 1
  {
    FoundThenDropped(c);
    var a, b := [Create(1, c), Look(1), Op.Drop(c)], [Op.Unlink(c), Op.Free(c)];
    var w0, w1 := Fresh(1), Single(c, 0, multiset{c}, multiset{c});
    hide LegalRun, End, Forget;
    FinishLeads(w1, c);
    var w2 := End(w1, b);
    LeadsOn(w0, a, w1, b, w2);
    OneStep(w2, Take(c));
    LeadsOn(w0, a + b, w2, [Take(c)], Apply(w2, Take(c)));
  }
}
