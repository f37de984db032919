/** Who holds a channel and when it goes away (src/progress.c:84-98, 152-232), one step for each time a lock is held. */
module ProgressLifecycle {
  import opened ProgressChannel
  import opened ProgressRegistry

  // -------------------------------------------------------------- the ideal course

  /** The table and the references to every channel there ever was; the channels that calls to acquire have found but
      not yet counted; those whose last reference has been dropped but that are still to be taken out of the table, and
      those taken out but still to be freed; and the channels destroyed, in order. */
  datatype World = World(
    table: Table,
    refs: map<Channel, int>,
    looked: multiset<Channel>,
    dropped: multiset<Channel>,
    unlinked: multiset<Channel>,
    destroyed: seq<Channel>)

  /** Acquiring is a Look and, if that finds a channel, a Take. Releasing is a Drop and, if that drops the last
      reference, an Unlink and a Free. */
  datatype Op =
    | Create(id: nat, c: Channel)
    | Look(id: nat)
    | Take(c: Channel)
    | Retain(c: Channel)
    | Drop(c: Channel)
    | Unlink(c: Channel)
    | Free(c: Channel)

  /** A new channel is new, who retains or drops a channel holds a reference to it, and the later steps of a call
      follow its earlier ones. */
  ghost predicate Legal(w: World, op: Op) {
    match op
    case Create(id, c) => c !in w.refs && c.jobId == id
    case Look(_) => true
    case Take(c) => c in w.looked && c in w.refs
    case Retain(c) => Refs(w, c) > 0
    case Drop(c) => Refs(w, c) > 0
    case Unlink(c) => c in w.dropped
    case Free(c) => c in w.unlinked
  }

  function Refs(w: World, c: Channel): int {
    if c in w.refs then w.refs[c] else 0
  }

  /** The channel that the operation gives its caller a reference to. */
  function Granted(w: World, op: Op): Channel?
    requires w.table != []
  {
    match op
    case Create(id, c) => if SlotFor(w.table, id) == -1 then null else c
    case Take(c) => c
    case Retain(c) => c
    case _ => null
  }

  function Counted(w: World, c: Channel, delta: int): World {
    w.(refs := w.refs[c := Refs(w, c) + delta])
  }

  function Apply(w: World, op: Op): (r: World)
    requires w.table != []
    ensures |r.table| == |w.table|
  {
    match op
    case Create(id, c) =>
      if Granted(w, op) == null then w else w.(table := Register(w.table, id, c), refs := w.refs[c := 1])
    case Look(id) =>
      var c := Find(w.table, id);
      if c == null then w else w.(looked := w.looked + multiset{c})
    case Take(c) => Counted(w, c, 1).(looked := w.looked - multiset{c})
    case Retain(c) => Counted(w, c, 1)
    case Drop(c) =>
      Counted(w, c, -1).(dropped := if Refs(w, c) == 1 then w.dropped + multiset{c} else w.dropped)
    case Unlink(c) =>
      w.(table := Forget(w.table, c.jobId), dropped := w.dropped - multiset{c}, unlinked := w.unlinked + multiset{c})
    case Free(c) => w.(unlinked := w.unlinked - multiset{c}, destroyed := w.destroyed + [c])
  }

  // -------------------------------------------------------------- what goes wrong

  /** The operation registers a job that is in the table already, and there is room for it. */
  ghost predicate Reregisters(w: World, op: Op)
    requires w.table != []
  {
    op.Create? && SlotFor(w.table, op.id) != -1 && IsLive(w.table, op.id)
  }

  /** The operation counts a reference to a channel whose last reference has been dropped since it was found. */
  predicate Revives(w: World, op: Op) {
    op.Take? && Refs(w, op.c) == 0
  }

  ghost predicate Bad(w: World, op: Op)
    requires w.table != []
  {
    Reregisters(w, op) || Revives(w, op)
  }

  ghost predicate Allowed(w: World, op: Op)
    requires w.table != []
  {
    Legal(w, op) && !Bad(w, op)
  }

  // ------------------------------------------------------------------ the invariant

  ghost predicate InTable(t: Table, c: Channel) {
    exists k :: 0 <= k < |t| && t[k].channel == c
  }

  ghost predicate Labelled(t: Table) {
    forall k :: 0 <= k < |t| && t[k].channel != null ==> t[k].jobId == t[k].channel.jobId && t[k].jobId != 0
  }

  ghost predicate NoRepeats(s: seq<Channel>) {
    forall i, j :: 0 <= i < j < |s| ==> s[i] != s[j]
  }

  /** In how many stages of going away the channel is. */
  function Leaving(w: World, c: Channel): nat {
    w.dropped[c] + w.unlinked[c] + if c in w.destroyed then 1 else 0
  }

  ghost predicate Known(w: World) {
    && (forall k :: 0 <= k < |w.table| && w.table[k].channel != null ==> w.table[k].channel in w.refs)
    && (forall c :: c in w.looked ==> c in w.refs) && (forall c :: c in w.dropped ==> c in w.refs)
    && (forall c :: c in w.unlinked ==> c in w.refs)
    && forall i :: 0 <= i < |w.destroyed| ==> w.destroyed[i] in w.refs
  }

  /** A channel is in the table exactly while someone holds it or its last holder is about to take it out; once nobody
      holds it, it is in exactly one stage of going away, and before that in none. */
  ghost predicate InOrder(w: World, c: Channel) {
    && Refs(w, c) >= 0
    && (InTable(w.table, c) <==> Refs(w, c) > 0 || c in w.dropped)
    && Leaving(w, c) == if Refs(w, c) > 0 then 0 else 1
  }

  ghost predicate Inv(w: World) {
    && w.table != [] && Distinct(w.table) && Labelled(w.table) && NoRepeats(w.destroyed) && Known(w)
    && forall c :: c in w.refs ==> InOrder(w, c)
  }

  lemma RegisterTable(t: Table, id: nat, c: Channel)
    requires t != [] && Distinct(t) && Labelled(t) && c.jobId == id && !IsLive(t, id) && SlotFor(t, id) != -1
    ensures var t' := Register(t, id, c);
      && t' != [] && Distinct(t') && Labelled(t') && (forall d :: InTable(t', d) <==> InTable(t, d) || d == c)
      && forall k :: 0 <= k < |t'| ==> k < |t| && (t'[k] == t[k] || t'[k] == Entry(id, c))
  {
    StaysDistinctExactlyWhen(t, id, c);
    var slot, t' := SlotFor(t, id), Register(t, id, c);
    assert t[slot].channel == null && id != 0;
    hide SlotFor;
    assert t'[slot].channel == c;
    forall d | InTable(t, d) ensures InTable(t', d) {
      var k :| 0 <= k < |t| && t[k].channel == d;
      assert t'[k] == t[k];
    }
  }

  lemma ForgetTable(t: Table, c: Channel)
    requires t != [] && Distinct(t) && Labelled(t) && InTable(t, c)
    ensures var t' := Forget(t, c.jobId);
      && t' != [] && Distinct(t') && Labelled(t') && (forall d :: InTable(t', d) <==> InTable(t, d) && d != c)
      && forall k :: 0 <= k < |t'| ==> k < |t| && (t'[k] == t[k] || t'[k] == FREE)
  {
    var slot, t' := SlotOf(t, c.jobId, 0), Forget(t, c.jobId);
    hide SlotOf;
    var k :| 0 <= k < |t| && t[k].channel == c;
    assert Live(t[k], c.jobId);
    assert slot == k;
    forall d | InTable(t, d) && d != c ensures InTable(t', d) {
      var i :| 0 <= i < |t| && t[i].channel == d;
      assert t'[i] == t[i];
    }
    assert !InTable(t', c) by {
      forall i | 0 <= i < |t'| ensures t'[i].channel != c {
      }
    }
  }

  lemma FoundIsInTable(t: Table, id: nat)
    ensures Find(t, id) != null ==> InTable(t, Find(t, id))
  {
  }

  lemma TableIsKnown(w: World, c: Channel)
    requires Known(w) && InTable(w.table, c)
    ensures c in w.refs
  {
  }

  lemma CreateKeepsInv(w: World, op: Op)
    requires Inv(w) && op.Create? && Allowed(w, op)
    ensures Inv(Apply(w, op))
  {
    hide Distinct, Labelled, InTable, IsLive, Register, SlotFor;
    if Granted(w, op) != null {
      RegisterTable(w.table, op.id, op.c);
      var w' := Apply(w, op);
      assert op.c !in w.dropped && op.c !in w.unlinked && op.c !in w.destroyed;
      forall d | d in w'.refs ensures InOrder(w', d) {
        if d != op.c { assert InOrder(w, d); }
      }
    }
  }

  lemma LookKeepsInv(w: World, op: Op)
    requires Inv(w) && op.Look?
    ensures Inv(Apply(w, op))
  {
    hide Distinct, Labelled, InTable, Find, NoRepeats;
    var w' := Apply(w, op);
    FoundIsInTable(w.table, op.id);
    var found := Find(w.table, op.id);
    if found != null { TableIsKnown(w, found); }
    forall d | d in w'.refs ensures InOrder(w', d) { assert InOrder(w, d); }
  }

  lemma CountKeepsInv(w: World, op: Op)
    requires Inv(w) && (op.Take? || op.Retain?) && Allowed(w, op)
    ensures Inv(Apply(w, op))
  {
    hide Distinct, Labelled, InTable, NoRepeats;
    var w' := Apply(w, op);
    forall d | d in w'.refs ensures InOrder(w', d) { assert InOrder(w, d); }
  }

  lemma DropKeepsInv(w: World, op: Op)
    requires Inv(w) && op.Drop? && Legal(w, op)
    ensures Inv(Apply(w, op))
  {
    hide Distinct, Labelled, InTable, NoRepeats;
    var w' := Apply(w, op);
    forall d | d in w'.refs ensures InOrder(w', d) { assert InOrder(w, d); }
  }

  lemma UnlinkKeepsInv(w: World, op: Op)
    requires Inv(w) && op.Unlink? && Legal(w, op)
    ensures Inv(Apply(w, op))
  {
    hide Distinct, Labelled, InTable, NoRepeats, Forget;
    assert InOrder(w, op.c);
    ForgetTable(w.table, op.c);
    var w' := Apply(w, op);
    forall d | d in w'.refs ensures InOrder(w', d) { assert InOrder(w, d); }
  }

  lemma OneMoreDestroyed(s: seq<Channel>, c: Channel)
    requires NoRepeats(s) && c !in s
    ensures NoRepeats(s + [c]) && forall d :: d in s + [c] <==> d in s || d == c
  {
  }

  lemma FreeKeepsInv(w: World, op: Op)
    requires Inv(w) && op.Free? && Legal(w, op)
    ensures Inv(Apply(w, op))
  {
    hide Distinct, Labelled, InTable, NoRepeats;
    assert InOrder(w, op.c);
    assert op.c !in w.destroyed;
    OneMoreDestroyed(w.destroyed, op.c);
    var w' := Apply(w, op);
    assert Known(w') by { hide InOrder; }
    forall d | d in w'.refs ensures InOrder(w', d) { assert InOrder(w, d); }
  }

  /** A job that is in the table twice. */
  lemma ReregisteringBreaksInv(w: World, op: Op)
    requires Inv(w) && Legal(w, op) && Reregisters(w, op)
    ensures !Inv(Apply(w, op))
  {
    hide IsLive, Register, SlotFor, InOrder, Known, NoRepeats, Labelled;
    StaysDistinctExactlyWhen(w.table, op.id, op.c);
  }

  lemma RevivalBreaksInv(w: World, op: Op)
    requires Inv(w) && Legal(w, op) && Revives(w, op)
    ensures Refs(Apply(w, op), op.c) == 1 && Leaving(Apply(w, op), op.c) == 1 && !Inv(Apply(w, op))
  {
    assert InOrder(w, op.c);
    assert !InOrder(Apply(w, op), op.c) by { hide InTable; }
  }

  lemma InvTable(w: World)
    requires Inv(w)
    ensures w.table != []
  {
  }

  /** A legal operation keeps the invariant if and only if it neither registers a job that is in the table nor counts a
      reference to a channel whose last one has been dropped. */
  lemma StepKeepsInv(w: World, op: Op)
    requires Inv(w) && Legal(w, op)
    ensures Inv(Apply(w, op)) <==> !Bad(w, op)
  {
    hide Inv, Apply, Legal, SlotFor, IsLive;
    InvTable(w);
    match op
    case Create(_, _) => if Reregisters(w, op) { ReregisteringBreaksInv(w, op); } else { CreateKeepsInv(w, op); }
    case Look(_) => LookKeepsInv(w, op);
    case Take(_) => if Revives(w, op) { RevivalBreaksInv(w, op); } else { CountKeepsInv(w, op); }
    case Retain(_) => CountKeepsInv(w, op);
    case Drop(_) => DropKeepsInv(w, op);
    case Unlink(_) => UnlinkKeepsInv(w, op);
    case Free(_) => FreeKeepsInv(w, op);
  }

  lemma InTableIsFound(t: Table, c: Channel)
    requires t != [] && Distinct(t) && Labelled(t)
    ensures Find(t, c.jobId) == c <==> InTable(t, c)
  {
    FoundIsInTable(t, c.jobId);
    if InTable(t, c) {
      var k :| 0 <= k < |t| && t[k].channel == c;
      LiveIsFound(t, c.jobId, k);
      var j :| 0 <= j < |t| && Live(t[j], c.jobId) && t[j].channel == Find(t, c.jobId);
      assert j == k;
    }
  }

  /** A lookup finds the channel of a job exactly while someone holds it, or has dropped the last reference and not yet
      taken it out of the table. */
  lemma FoundExactlyWhileHeld(w: World, c: Channel)
    requires Inv(w) && c in w.refs
    ensures Find(w.table, c.jobId) == c <==> Refs(w, c) > 0 || c in w.dropped
  {
    assert InOrder(w, c);
    InTableIsFound(w.table, c);
  }

  // ------------------------------------------------------------------ the registry

  class Registry {
    const entries: array<Entry>
    ghost var channels: set<Channel>
    ghost var looked: multiset<Channel>
    ghost var dropped: multiset<Channel>
    ghost var unlinked: multiset<Channel>
    ghost var destroyed: seq<Channel>

    /** `fp_progress_registry_create`. */
    constructor (capacity: nat)
      ensures Valid() && fresh(entries) && Value() == Fresh(if capacity == 0 then 64 else capacity)
    {
      var n := if capacity == 0 then 64 else capacity;
      entries := new Entry[n](_ => FREE);
      channels := {};
      looked, dropped, unlinked := multiset{}, multiset{}, multiset{};
      destroyed := [];
      new;
      assert entries[..] == Unused(n);
      assert Value() == Fresh(n);
    }

    ghost function Value(): World
      reads this, entries, channels
    {
      World(entries[..], map c | c in channels :: c.refCount, looked, dropped, unlinked, destroyed)
    }

    /** There are slots, and the channels in them and those found are known. */
    ghost predicate Valid()
      reads this, entries
    {
      && 0 < entries.Length
      && (forall k :: 0 <= k < entries.Length && entries[k].channel != null ==> entries[k].channel in channels)
      && forall c :: c in looked ==> c in channels
    }

    /** `fp_progress_register`. It does not look whether the job is in the table already. */
    method Register(jobId: nat) returns (channel: Channel?)
      requires Valid()
      modifies this`channels, entries
      ensures Valid()
      ensures channel == null <==> SlotFor(old(Value()).table, jobId) == -1
      ensures if channel == null then Value() == old(Value())
              else fresh(channel) && channel.Valid() && Legal(old(Value()), Create(jobId, channel)) &&
                   Value() == Apply(old(Value()), Create(jobId, channel))
    {
      channel := null;
      if jobId == 0 { return; }
      var start := jobId % entries.Length;
      for i := 0 to entries.Length
        invariant channel == null && FreeSlot(entries[..], start, i) == SlotFor(entries[..], jobId)
      {
        var idx := Probe(start, i, entries.Length);
        if entries[idx].channel == null {
          channel := Place(idx, jobId);
          return;
        }
      }
    }

    /** A new channel in the free slot found. */
    method Place(idx: nat, jobId: nat) returns (channel: Channel)
      requires Valid() && jobId != 0 && idx < entries.Length && idx == SlotFor(Value().table, jobId)
      modifies this`channels, entries
      ensures Valid() && fresh(channel) && channel.Valid() && Legal(old(Value()), Create(jobId, channel))
      ensures Value() == Apply(old(Value()), Create(jobId, channel))
    {
      hide SlotFor;
      ghost var before := Value();
      channel := new Channel(jobId);
      entries[idx] := Entry(jobId, channel);
      channels := channels + {channel};
      assert Value().refs == before.refs[channel := 1];
      assert Value().table == before.table[idx := Entry(jobId, channel)];
    }

    /** `fp_progress_registry_find`. */
    method FindChannel(jobId: nat) returns (channel: Channel?)
      requires Valid()
      modifies this`looked
      ensures Valid() && channel == Find(old(Value()).table, jobId)
      ensures Value() == Apply(old(Value()), Op.Look(jobId))
    {
      channel := Probing(jobId);
      if channel != null {
        FoundIsInTable(entries[..], jobId);
        assert channel in channels by {
          var k :| 0 <= k < |entries[..]| && entries[..][k].channel == channel;
          assert entries[k].channel == channel;
        }
        looked := looked + multiset{channel};
      }
    }

    /** The probing loop. */
    method Probing(jobId: nat) returns (channel: Channel?)
      ensures channel == Find(entries[..], jobId)
    {
      channel := null;
      if jobId == 0 { return; }
      for i := 0 to entries.Length
        invariant channel == null && FindFrom(entries[..], jobId, i) == Find(entries[..], jobId)
      {
        var idx := Probe(jobId % entries.Length, i, entries.Length);
        if entries[idx].channel == null { continue; }
        if entries[idx].jobId == jobId {
          channel := entries[idx].channel;
          return;
        }
      }
    }

    /** The increment of `fp_progress_acquire`. */
    method CountFound(channel: Channel)
      requires Valid() && Legal(Value(), Op.Take(channel))
      modifies this`looked, channel`refCount
      ensures Valid() && Value() == Apply(old(Value()), Op.Take(channel))
    {
      ghost var before := Value();
      channel.refCount := channel.refCount + 1;
      looked := looked - multiset{channel};
      assert Value().refs == before.refs[channel := before.refs[channel] + 1];
    }

    /** `fp_progress_acquire`, when no other call comes in between. */
    method Acquire(jobId: nat) returns (channel: Channel?)
      requires Valid()
      modifies this`looked, channels`refCount
      ensures Valid() && channels == old(channels) && channel == Find(old(Value()).table, jobId)
      ensures var found := Apply(old(Value()), Op.Look(jobId));
        Value() == if channel == null then found else Apply(found, Op.Take(channel))
    {
      channel := FindChannel(jobId);
      if channel != null {
        assert channel in looked && channel in channels;
        CountFound(channel);
      }
    }

    /** `fp_progress_retain`. */
    method Retain(channel: Channel)
      requires Valid() && Legal(Value(), Op.Retain(channel))
      modifies channel`refCount
      ensures Valid() && Value() == Apply(old(Value()), Op.Retain(channel))
    {
      ghost var before := Value();
      channel.refCount := channel.refCount + 1;
      assert Value().refs == before.refs[channel := before.refs[channel] + 1];
    }

    /** The locked part of `fp_progress_release`. */
    method Drop(channel: Channel) returns (destroy: bool)
      requires Valid() && Legal(Value(), Op.Drop(channel))
      modifies this`dropped, channel`refCount
      ensures Valid() && Value() == Apply(old(Value()), Op.Drop(channel))
      ensures destroy <==> old(channel.refCount) == 1
    {
      ghost var before := Value();
      channel.refCount := channel.refCount - 1;
      assert Value().refs == before.refs[channel := before.refs[channel] - 1];
      destroy := channel.refCount == 0;
      if destroy { dropped := dropped + multiset{channel}; }
    }

    /** `fp_progress_registry_forget` for a channel that is going away. */
    method Unlink(channel: Channel)
      requires Valid() && Legal(Value(), Op.Unlink(channel))
      modifies this`dropped, this`unlinked, entries
      ensures Valid() && Value() == Apply(old(Value()), Op.Unlink(channel))
    {
      hide Forget;
      ForgetJob(channel.jobId);
      ghost var after := Value();
      dropped := dropped - multiset{channel};
      unlinked := unlinked + multiset{channel};
      assert Value().refs == after.refs;
    }

    /** Its loop. */
    method ForgetJob(jobId: nat)
      requires Valid()
      modifies entries
      ensures Valid() && Value() == old(Value()).(table := Forget(old(Value()).table, jobId))
    {
      ghost var before := Value();
      for i := 0 to entries.Length
        invariant Valid() && Value() == before
        invariant SlotOf(entries[..], jobId, i) == SlotOf(entries[..], jobId, 0)
      {
        if entries[i].channel != null && entries[i].jobId == jobId {
          entries[i] := FREE;
          assert entries[..] == before.table[i := FREE];
          assert Value().refs == before.refs;
          return;
        }
      }
    }

    /** `fp_progress_channel_destroy`; `freed` are the events freed with the channel. */
    method Free(channel: Channel) returns (freed: seq<Event>)
      requires Valid() && Legal(Value(), Op.Free(channel)) && channel.Valid()
      modifies this`unlinked, this`destroyed
      ensures Valid() && Value() == Apply(old(Value()), Op.Free(channel)) && freed == channel.nodes
    {
      freed := channel.FreeEvents();
      unlinked := unlinked - multiset{channel};
      destroyed := destroyed + [channel];
    }

    /** `fp_progress_release`, when no other call comes in between. */
    method Release(channel: Channel) returns (destroy: bool, freed: seq<Event>)
      requires Valid() && Legal(Value(), Op.Drop(channel)) && channel.Valid()
      modifies this`dropped, this`unlinked, this`destroyed, entries, channel`refCount
      ensures Valid() && (destroy <==> old(channel.refCount) == 1)
      ensures freed == if destroy then old(channel.nodes) else []
      ensures var w := Apply(old(Value()), Op.Drop(channel));
        Value() == if destroy then Apply(Apply(w, Op.Unlink(channel)), Op.Free(channel)) else w
    {
      hide Apply, Legal;
      HeldIsKnown(Value(), channel);
      if channel.refCount == 1 { ReleaseIsLegal(Value(), channel); }
      freed := [];
      destroy := Drop(channel);
      if destroy {
        Unlink(channel);
        freed := Free(channel);
      }
    }
  }

  lemma HeldIsKnown(w: World, c: Channel)
    requires Legal(w, Op.Drop(c))
    ensures c in w.refs && Refs(w, c) == w.refs[c] > 0
  {
  }

  lemma ReleaseIsLegal(w: World, c: Channel)
    requires w.table != [] && Refs(w, c) == 1
    ensures var dropped := Apply(w, Op.Drop(c));
      Legal(dropped, Op.Unlink(c)) && Legal(Apply(dropped, Op.Unlink(c)), Op.Free(c))
  {
  }

  function Fresh(capacity: nat): World {
    World(Unused(capacity), map[], multiset{}, multiset{}, multiset{}, [])
  }

  lemma FreshInv(capacity: nat)
    requires 0 < capacity
    ensures Inv(Fresh(capacity))
  {
  }
}
