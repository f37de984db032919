/** The table of live progress channels (src/progress.c:59-64, 67-98, 153-232): open addressing with holes. */
module ProgressRegistry {
  import Common
  import opened ProgressChannel

  /** A slot is free when it has no channel. */
  datatype Entry = Entry(jobId: nat, channel: Channel?)

  const FREE := Entry(0, null)

  type Table = seq<Entry>

  /** The slot looked at in step i of a probe. */
  function Probe(start: nat, i: nat, capacity: nat): (slot: nat)
    requires 0 < capacity
    ensures slot < capacity
  {
    (start + i) % capacity
  }

  /** A probe visits every slot in exactly one of its steps. */
  lemma ProbeVisitsOnce(start: nat, slot: nat, capacity: nat)
    requires slot < capacity
    ensures exists i :: 0 <= i < capacity && Probe(start, i, capacity) == slot
    ensures forall i, j :: 0 <= i < j < capacity ==> Probe(start, i, capacity) != Probe(start, j, capacity)
  {
    var s := start % capacity;
    var i := if slot >= s then slot - s else slot - s + capacity;
    ProbeFromRemainder(start, i, capacity);
    assert Probe(start, i, capacity) == slot;
    forall i, j | 0 <= i < j < capacity ensures Probe(start, i, capacity) != Probe(start, j, capacity) {
      ProbeFromRemainder(start, i, capacity);
      ProbeFromRemainder(start, j, capacity);
    }
  }

  lemma ProbeFromRemainder(start: nat, i: nat, capacity: nat)
    requires i < capacity
    ensures var s := start % capacity;
      Probe(start, i, capacity) == if s + i < capacity then s + i else s + i - capacity
  {
    var s, q := start % capacity, start / capacity;
    assert start == capacity * q + s;
    if s + i < capacity {
      Common.DivModUnique(start + i, q, s + i, capacity);
    } else {
      assert start + i == capacity * (q + 1) + (s + i - capacity);
      Common.DivModUnique(start + i, q + 1, s + i - capacity, capacity);
    }
  }

  predicate Live(e: Entry, id: nat) {
    e.channel != null && e.jobId == id
  }

  /** The first free slot from step i of the probe on, or -1. */
  function FreeSlot(t: Table, start: nat, i: nat): (slot: int)
    requires i <= |t|
    ensures slot == -1 || (0 <= slot < |t| && t[slot].channel == null)
    ensures slot == -1 ==> forall k :: i <= k < |t| ==> t[Probe(start, k, |t|)].channel != null
    decreases |t| - i
  {
    if i == |t| then -1
    else if t[Probe(start, i, |t|)].channel == null then Probe(start, i, |t|)
    else FreeSlot(t, start, i + 1)
  }

  /** The channel of the first entry for the job from step i of the probe on; free slots are passed over. */
  function FindFrom(t: Table, id: nat, i: nat): (c: Channel?)
    requires i <= |t|
    ensures c != null ==> exists k :: 0 <= k < |t| && Live(t[k], id) && t[k].channel == c
    ensures c == null ==> forall k :: i <= k < |t| ==> !Live(t[Probe(id % |t|, k, |t|)], id)
    decreases |t| - i
  {
    if i == |t| then null
    else
      var slot := Probe(id % |t|, i, |t|);
      if Live(t[slot], id) then t[slot].channel else FindFrom(t, id, i + 1)
  }

  function Find(t: Table, id: nat): Channel? {
    if id == 0 then null else FindFrom(t, id, 0)
  }

  function SlotFor(t: Table, id: nat): int
    requires t != []
  {
    if id == 0 then -1 else FreeSlot(t, id % |t|, 0)
  }

  function Register(t: Table, id: nat, c: Channel): Table
    requires t != []
  {
    if SlotFor(t, id) == -1 then t else t[SlotFor(t, id) := Entry(id, c)]
  }

  /** The first entry for the job, in slot order. */
  function SlotOf(t: Table, id: nat, i: nat): (slot: int)
    requires i <= |t|
    ensures slot == -1 || (i <= slot < |t| && Live(t[slot], id))
    ensures forall k :: i <= k < |t| && (slot == -1 || k < slot) ==> !Live(t[k], id)
    decreases |t| - i
  {
    if i == |t| then -1 else if Live(t[i], id) then i else SlotOf(t, id, i + 1)
  }

  function Forget(t: Table, id: nat): (r: Table)
    ensures |r| == |t|
  {
    if SlotOf(t, id, 0) == -1 then t else t[SlotOf(t, id, 0) := FREE]
  }

  // --------------------------------------------------- the table is a finite map

  ghost predicate IsLive(t: Table, id: nat) {
    exists k :: 0 <= k < |t| && Live(t[k], id)
  }

  ghost predicate Distinct(t: Table) {
    forall i, j :: 0 <= i < j < |t| && t[i].channel != null && t[j].channel != null ==> t[i].jobId != t[j].jobId
  }

  ghost predicate Represents(t: Table, m: map<nat, Channel>) {
    && Distinct(t)
    && (forall k :: 0 <= k < |t| && t[k].channel != null ==>
          t[k].jobId != 0 && t[k].jobId in m && m[t[k].jobId] == t[k].channel)
    && forall id :: id in m ==> IsLive(t, id)
  }

  lemma NoFreeSlotMeansFull(t: Table, id: nat)
    requires t != [] && id != 0
    ensures SlotFor(t, id) == -1 <==> forall k :: 0 <= k < |t| ==> t[k].channel != null
  {
    hide Probe;
    if SlotFor(t, id) == -1 {
      forall k | 0 <= k < |t| ensures t[k].channel != null {
        ProbeVisitsOnce(id % |t|, k, |t|);
      }
    }
  }

  /** Lookup is exact despite the holes that Forget leaves. */
  lemma FindsWhatIsThere(t: Table, m: map<nat, Channel>, id: nat)
    requires Represents(t, m)
    ensures Find(t, id) == if id in m then m[id] else null
  {
    hide Probe;
    if id != 0 && id in m {
      var k :| 0 <= k < |t| && Live(t[k], id);
      ProbeVisitsOnce(id % |t|, k, |t|);
    }
  }

  function LiveCount(t: Table): (n: nat)
    ensures n <= |t|
  {
    if t == [] then 0 else (if t[0].channel != null then 1 else 0) + LiveCount(t[1..])
  }

  ghost function Ids(t: Table): set<nat> {
    set k | 0 <= k < |t| && t[k].channel != null :: t[k].jobId
  }

  lemma {:induction false} DistinctIdsCount(t: Table)
    requires Distinct(t)
    ensures |Ids(t)| == LiveCount(t)
    ensures LiveCount(t) == |t| <==> forall k :: 0 <= k < |t| ==> t[k].channel != null
  {
    if t != [] {
      var rest := t[1..];
      DistinctIdsCount(rest);
      FirstId(t);
      FullTail(t);
    }
  }

  lemma FullTail(t: Table)
    requires t != []
    ensures (forall k :: 0 <= k < |t| ==> t[k].channel != null) <==>
            t[0].channel != null && forall k :: 0 <= k < |t[1..]| ==> t[1..][k].channel != null
  {
    if t[0].channel != null && forall k :: 0 <= k < |t[1..]| ==> t[1..][k].channel != null {
      forall k | 0 <= k < |t| ensures t[k].channel != null {
        assert k > 0 ==> t[1..][k - 1].channel != null;
      }
    }
  }

  lemma FirstId(t: Table)
    requires t != [] && Distinct(t)
    ensures Ids(t) == if t[0].channel != null then {t[0].jobId} + Ids(t[1..]) else Ids(t[1..])
    ensures t[0].channel != null ==> t[0].jobId !in Ids(t[1..])
  {
    var rest := t[1..];
    forall id | id in Ids(t) ensures (t[0].channel != null && id == t[0].jobId) || id in Ids(rest) {
      var k :| 0 <= k < |t| && t[k].channel != null && t[k].jobId == id;
      assert k > 0 ==> rest[k - 1] == t[k];
    }
    forall id | id in Ids(rest) ensures id in Ids(t) {
      var k :| 0 <= k < |rest| && rest[k].channel != null && rest[k].jobId == id;
      assert rest[k] == t[k + 1];
    }
  }

  /** A job with an id finds no room exactly when as many jobs are live as the table has slots. */
  lemma FullExactlyWhen(t: Table, m: map<nat, Channel>, id: nat)
    requires t != [] && Represents(t, m) && id != 0
    ensures |m| <= |t| && (SlotFor(t, id) == -1 <==> |m| == |t|)
  {
    hide FreeSlot;
    NoFreeSlotMeansFull(t, id);
    DistinctIdsCount(t);
    assert Ids(t) == m.Keys by {
      forall i | i in m ensures i in Ids(t) { var k :| 0 <= k < |t| && Live(t[k], i); }
    }
    assert |m| == |m.Keys|;
  }

  function RegisterIdeal(m: map<nat, Channel>, id: nat, c: Channel, capacity: nat): map<nat, Channel> {
    if id == 0 || |m| == capacity then m else m[id := c]
  }

  lemma AddsToMap(t: Table, m: map<nat, Channel>, id: nat, c: Channel)
    requires t != [] && Represents(t, m) && (id !in m || |m| == |t|)
    ensures Represents(Register(t, id, c), RegisterIdeal(m, id, c, |t|))
  {
    if id != 0 {
      FullExactlyWhen(t, m, id);
      hide FreeSlot;
      var slot := SlotFor(t, id);
      if slot != -1 {
        var t', m' := Register(t, id, c), m[id := c];
        assert Live(t'[slot], id);
        forall i | i in m' ensures IsLive(t', i) {
          if i != id {
            var k :| 0 <= k < |t| && Live(t[k], i);
            assert Live(t'[k], i);
          }
        }
      }
    }
  }

  /** Registering adds the job to the map, unless it is full, and the table then holds the new map, exactly when
      the job was not live or there was no room for it. */
  lemma RegisterRefines(t: Table, m: map<nat, Channel>, id: nat, c: Channel)
    requires t != [] && Represents(t, m)
    ensures Represents(Register(t, id, c), RegisterIdeal(m, id, c, |t|)) <==> id !in m || |m| == |t|
  {
    if id !in m || |m| == |t| {
      AddsToMap(t, m, id, c);
    } else {
      hide SlotFor;
      LiveHasId(t, m, id);
      TwoEntries(t, m, id, c);
    }
  }

  lemma LiveHasId(t: Table, m: map<nat, Channel>, id: nat)
    requires t != [] && Represents(t, m) && id in m
    ensures id != 0 && |m| <= |t|
  {
    var k :| 0 <= k < |t| && Live(t[k], id);
    FullExactlyWhen(t, m, id);
  }

  /** A job that is registered while it is live has two entries. */
  lemma TwoEntries(t: Table, m: map<nat, Channel>, id: nat, c: Channel)
    requires t != [] && Represents(t, m) && id in m && |m| < |t|
    ensures exists i, j :: 0 <= i < j < |t| && Live(Register(t, id, c)[i], id) && Live(Register(t, id, c)[j], id)
  {
    var k :| 0 <= k < |t| && Live(t[k], id);
    FullExactlyWhen(t, m, id);
    hide FreeSlot;
    var slot, t' := SlotFor(t, id), Register(t, id, c);
    assert Live(t'[slot], id) && Live(t'[k], id);
    assert k < slot || slot < k;
  }

  lemma ForgetRefines(t: Table, m: map<nat, Channel>, id: nat)
    requires Represents(t, m)
    ensures Represents(Forget(t, id), m - {id})
  {
    var slot, t', m' := SlotOf(t, id, 0), Forget(t, id), m - {id};
    hide SlotOf;
    if slot == -1 {
      assert id !in m;
      assert m' == m;
    } else {
      forall i | i in m' ensures IsLive(t', i) {
        var k :| 0 <= k < |t| && Live(t[k], i);
        assert Live(t'[k], i);
      }
    }
  }

  /** Why the ids must be distinct: a job that is registered twice breaks the map, and nothing else does. */
  lemma StaysDistinctExactlyWhen(t: Table, id: nat, c: Channel)
    requires t != [] && Distinct(t) && SlotFor(t, id) != -1
    ensures Distinct(Register(t, id, c)) <==> !IsLive(t, id)
  {
    var slot, t' := SlotFor(t, id), Register(t, id, c);
    hide SlotFor;
    if IsLive(t, id) {
      var k :| 0 <= k < |t| && Live(t[k], id);
      assert t'[k] == t[k];
      var i, j := if k < slot then k else slot, if k < slot then slot else k;
      assert t'[i].jobId == t'[j].jobId;
    }
  }

  // ---------------------------------------------------------------- every history

  datatype Change = Add(id: nat, c: Channel) | Remove(id: nat)

  function ChangeTable(t: Table, change: Change): (r: Table)
    requires t != []
    ensures |r| == |t|
  {
    match change
    case Add(id, c) => Register(t, id, c)
    case Remove(id) => Forget(t, id)
  }

  function ChangeMap(m: map<nat, Channel>, change: Change, capacity: nat): map<nat, Channel> {
    match change
    case Add(id, c) => RegisterIdeal(m, id, c, capacity)
    case Remove(id) => m - {id}
  }

  /** The change registers a job that is live, and there is room for it. */
  predicate Doubles(m: map<nat, Channel>, change: Change, capacity: nat) {
    change.Add? && change.id in m && |m| != capacity
  }

  /** No job is registered a second time while it is live. */
  predicate DistinctIds(m: map<nat, Channel>, changes: seq<Change>, capacity: nat)
    decreases |changes|
  {
    changes == [] ||
    (!Doubles(m, changes[0], capacity) && DistinctIds(ChangeMap(m, changes[0], capacity), changes[1..], capacity))
  }

  function Lookup(m: map<nat, Channel>, id: nat): Channel? {
    if id in m then m[id] else null
  }

  ghost predicate AnswersAs(t: Table, m: map<nat, Channel>) {
    forall id: nat :: Find(t, id) == Lookup(m, id)
  }

  /** Lookups answer as the map does, now and after any one job has been forgotten. */
  ghost predicate Exact(t: Table, m: map<nat, Channel>) {
    AnswersAs(t, m) && forall id: nat :: AnswersAs(Forget(t, id), m - {id})
  }

  /** Lookups are exact before and after every change. */
  ghost predicate ExactThroughout(t: Table, m: map<nat, Channel>, changes: seq<Change>)
    requires t != []
    decreases |changes|
  {
    Exact(t, m) &&
    (changes == [] || ExactThroughout(ChangeTable(t, changes[0]), ChangeMap(m, changes[0], |t|), changes[1..]))
  }

  lemma RepresentsIsExact(t: Table, m: map<nat, Channel>)
    requires Represents(t, m)
    ensures Exact(t, m)
  {
    hide Represents, Find, Forget;
    forall id: nat ensures Find(t, id) == Lookup(m, id) { FindsWhatIsThere(t, m, id); }
    forall id: nat ensures AnswersAs(Forget(t, id), m - {id}) {
      ForgetRefines(t, m, id);
      forall i: nat ensures Find(Forget(t, id), i) == Lookup(m - {id}, i) {
        FindsWhatIsThere(Forget(t, id), m - {id}, i);
      }
    }
  }

  lemma LiveIsFound(t: Table, id: nat, k: nat)
    requires k < |t| && id != 0 && Live(t[k], id)
    ensures Find(t, id) != null
  {
    hide Probe;
    ProbeVisitsOnce(id % |t|, k, |t|);
  }

  /** After a second registration, forgetting the job leaves it to be found. */
  lemma DoubledIsNotExact(t: Table, m: map<nat, Channel>, change: Change)
    requires t != [] && Represents(t, m) && Doubles(m, change, |t|)
    ensures !Exact(ChangeTable(t, change), ChangeMap(m, change, |t|))
  {
    var id, c := change.id, change.c;
    LiveHasId(t, m, id);
    TwoEntries(t, m, id, c);
    hide Register, Represents;
    var t', m' := Register(t, id, c), RegisterIdeal(m, id, c, |t|);
    var i, j :| 0 <= i < j < |t| && Live(t'[i], id) && Live(t'[j], id);
    var left := if SlotOf(t', id, 0) == i then j else i;
    LiveIsFound(Forget(t', id), id, left);
    assert Lookup(m' - {id}, id) == null;
    assert !AnswersAs(Forget(t', id), m' - {id});
  }

  /** For every history of registering and forgetting jobs: lookups are exact throughout if and only if no job is
      registered a second time while it is live. */
  lemma {:induction false} ExactExactlyWhen(t: Table, m: map<nat, Channel>, changes: seq<Change>)
    requires t != [] && Represents(t, m)
    ensures ExactThroughout(t, m, changes) <==> DistinctIds(m, changes, |t|)
    decreases |changes|
  {
    hide Represents, Exact, Doubles, ChangeTable, ChangeMap;
    RepresentsIsExact(t, m);
    if changes != [] {
      var t', m' := ChangeTable(t, changes[0]), ChangeMap(m, changes[0], |t|);
      if Doubles(m, changes[0], |t|) {
        DoubledIsNotExact(t, m, changes[0]);
      } else {
        ChangeRefines(t, m, changes[0]);
        ExactExactlyWhen(t', m', changes[1..]);
      }
    }
  }

  lemma ChangeRefines(t: Table, m: map<nat, Channel>, change: Change)
    requires t != [] && Represents(t, m) && !Doubles(m, change, |t|)
    ensures Represents(ChangeTable(t, change), ChangeMap(m, change, |t|))
  {
    hide Represents, Register, Forget;
    match change
    case Add(id, c) => RegisterRefines(t, m, id, c);
    case Remove(id) => ForgetRefines(t, m, id);
  }

  function Unused(capacity: nat): Table {
    seq(capacity, _ => FREE)
  }

  /** The same from an empty table. */
  lemma FindAfterAnyHistory(capacity: nat, changes: seq<Change>)
    requires 0 < capacity
    ensures ExactThroughout(Unused(capacity), map[], changes) <==> DistinctIds(map[], changes, capacity)
  {
    assert Represents(Unused(capacity), map[]);
    ExactExactlyWhen(Unused(capacity), map[], changes);
  }
}
