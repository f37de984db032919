/** The running averages that predict encoding times, and the log they are rebuilt from
    (src/worker.c:314-378, 736-774). */
module EtaTable {
  import Common

  const SLOTS := 8

  /** `fp_eta_entry`; free while it has no samples. */
  datatype Entry = Entry(key: string, totalMs: real, totalWeight: real, samples: nat)

  const FREE := Entry("", 0.0, 0.0, 0)

  /** A line of the log: a single sample, or an entry with its number of samples. */
  datatype Record = Record(key: string, ms: real, weight: real, samples: nat)

  type Table = seq<Entry>

  /** The entry for the key from i on; |t| when there is none. */
  function Find(t: Table, key: string, i: nat): (slot: nat)
    requires i <= |t|
    ensures i <= slot <= |t|
    ensures slot < |t| ==> t[slot].samples > 0 && t[slot].key == key
    ensures forall k :: i <= k < slot ==> t[k].samples == 0 || t[k].key != key
    decreases |t| - i
  {
    if i == |t| || (t[i].samples > 0 && t[i].key == key) then i else Find(t, key, i + 1)
  }

  /** The first free entry from i on; |t| when there is none. */
  function FirstFree(t: Table, i: nat): (slot: nat)
    requires i <= |t|
    ensures i <= slot <= |t|
    ensures slot < |t| ==> t[slot].samples == 0
    ensures forall k :: i <= k < slot ==> t[k].samples > 0
    decreases |t| - i
  {
    if i == |t| || t[i].samples == 0 then i else FirstFree(t, i + 1)
  }

  function Plus(e: Entry, r: Record): Entry {
    Entry(e.key, e.totalMs + r.ms, e.totalWeight + r.weight, e.samples + r.samples)
  }

  /** A measurement: the key, the time taken in milliseconds and the size of the job. */
  datatype Sample = Sample(key: string, elapsed: real, units: real)

  function Units(s: Sample): real {
    if s.units <= 0.0 then 1.0 else s.units
  }

  predicate Counts(s: Sample) {
    s.key != "" && s.elapsed > 0.0
  }

  function RecordOf(s: Sample): Record {
    Record(s.key, s.elapsed, Units(s), 1)
  }

  /** Where an update goes: a new key that finds no free entry goes to the first. */
  function SlotFor(t: Table, key: string): (slot: nat)
    requires |t| == SLOTS
    ensures slot < SLOTS
  {
    if Find(t, key, 0) < |t| then Find(t, key, 0) else if FirstFree(t, 0) < |t| then FirstFree(t, 0) else 0
  }

  function Update(t: Table, s: Sample): (r: Table)
    requires |t| == SLOTS
    ensures |r| == SLOTS
  {
    if !Counts(s) then t
    else
      var slot := SlotFor(t, s.key);
      t[slot := Plus(if t[slot].samples == 0 then FREE.(key := s.key) else t[slot], RecordOf(s))]
  }

  /** One record read at start-up: a new key that finds no free entry is dropped. */
  function Load(t: Table, r: Record): (t': Table)
    ensures |t'| == |t|
  {
    var slot, free := Find(t, r.key, 0), FirstFree(t, 0);
    if r.samples == 0 || r.weight <= 0.0 then t
    else if slot < |t| then t[slot := Plus(t[slot], r)]
    else if free < |t| then t[free := Entry(r.key, r.ms, r.weight, r.samples)]
    else t
  }

  function LoadAll(t: Table, log: seq<Record>): (t': Table)
    ensures |t'| == |t|
    decreases |log|
  {
    if log == [] then t else LoadAll(Load(t, log[0]), log[1..])
  }

  function Updates(t: Table, samples: seq<Sample>): (t': Table)
    requires |t| == SLOTS
    ensures |t'| == SLOTS
    decreases |samples|
  {
    if samples == [] then t else Updates(Update(t, samples[0]), samples[1..])
  }

  function Logged(samples: seq<Sample>): seq<Record> {
    if samples == [] then []
    else (if Counts(samples[0]) then [RecordOf(samples[0])] else []) + Logged(samples[1..])
  }

  function Empty(): Table {
    seq(SLOTS, _ => FREE)
  }

  function Replay(log: seq<Record>): (t: Table)
    ensures |t| == SLOTS
  {
    LoadAll(Empty(), log)
  }

  // ------------------------------------------------------------------ the real table

  class Eta {
    const entries: array<Entry>
    var log: seq<Record>
    var loaded: bool

    ghost predicate Valid()
      reads this, entries
    {
      entries.Length == SLOTS && Good(entries[..]) && (!loaded ==> entries[..] == Empty())
    }

    /** The table at start-up, before the log that an earlier run left has been read. */
    constructor (log: seq<Record>)
      ensures Valid() && !loaded && this.log == log && fresh(entries)
    {
      entries := new Entry[SLOTS](_ => FREE);
      this.log := log;
      loaded := false;
      new;
      assert entries[..] == Empty();
      EmptyIsGood();
    }

    /** `worker_eta_load`. */
    method LoadLog()
      requires Valid() && !loaded
      modifies entries, this`loaded
      ensures Valid() && loaded && entries[..] == Replay(log)
    {
      for i := 0 to |log|
        invariant Good(entries[..]) && LoadAll(entries[..], log[i..]) == Replay(log)
      {
        assert log[i..][0] == log[i] && log[i..][1..] == log[i + 1..];
        LoadKeepsGood(entries[..], log[i]);
        LoadRecord(log[i]);
      }
      loaded := true;
    }

    method LoadRecord(r: Record)
      modifies entries
      ensures entries[..] == Load(old(entries[..]), r)
    {
      if r.samples == 0 || r.weight <= 0.0 { return; }
      var free := entries.Length;
      for i := 0 to entries.Length
        invariant entries[..] == old(entries[..])
        invariant Find(entries[..], r.key, i) == Find(entries[..], r.key, 0)
        invariant if free == entries.Length then FirstFree(entries[..], i) == FirstFree(entries[..], 0)
                  else free == FirstFree(entries[..], 0)
      {
        var e := entries[i];
        if e.samples > 0 && e.key == r.key {
          entries[i] := Plus(e, r);
          return;
        }
        if free == entries.Length && e.samples == 0 { free := i; }
      }
      if free < entries.Length {
        entries[free] := Entry(r.key, r.ms, r.weight, r.samples);
      }
    }

    /** `worker_eta_update`: the time expected for a job of this size. */
    method UpdateAverage(s: Sample) returns (eta: real)
      requires Valid()
      modifies this, entries
      ensures Valid()
      ensures if s.key != "" && s.elapsed > 0.0 then
          var t := if old(loaded) then old(entries[..]) else Replay(old(log));
          loaded && Good(t) && entries[..] == Update(t, s) && eta == TimeFor(t, s) &&
          log == old(log) + [Record(s.key, s.elapsed, if s.units <= 0.0 then 1.0 else s.units, 1)]
        else eta == s.elapsed && entries[..] == old(entries[..]) && log == old(log) && loaded == old(loaded)
    {
      hide Good, Update, SlotFor, Find, FirstFree, Replay;
      if s.key == "" || s.elapsed <= 0.0 { return s.elapsed; }
      var units := if s.units <= 0.0 then 1.0 else s.units;
      if !loaded { LoadLog(); }
      ghost var t := entries[..];
      UpdateKeepsGood(t, s);
      UpdateIs(t, s);
      var slot := SearchSlot(s.key);
      var e := if entries[slot].samples == 0 then FREE.(key := s.key) else entries[slot];
      e := Plus(e, Record(s.key, s.elapsed, units, 1));
      entries[slot] := e;
      assert entries[..] == t[slot := e];
      eta := e.totalMs / e.totalWeight * units;
      log := log + [Record(s.key, s.elapsed, units, 1)];
    }

    /** The search of `worker_eta_update`. */
    method SearchSlot(key: string) returns (slot: nat)
      requires entries.Length == SLOTS
      ensures slot == SlotFor(entries[..], key)
    {
      hide Find, FirstFree;
      slot := entries.Length;
      for i := 0 to entries.Length
        invariant Find(entries[..], key, i) == Find(entries[..], key, 0)
        invariant if slot == entries.Length then FirstFree(entries[..], i) == FirstFree(entries[..], 0)
                  else slot == FirstFree(entries[..], 0)
      {
        FindHere(entries[..], key, i);
        if entries[i].samples == 0 && slot == entries.Length { slot := i; }
        if entries[i].samples > 0 && entries[i].key == key {
          slot := i;
          break;
        }
      }
      if slot == entries.Length { slot := 0; }
    }
  }

  lemma FindHere(t: Table, key: string, i: nat)
    requires i < |t|
    ensures Find(t, key, i) == if t[i].samples > 0 && t[i].key == key then i else Find(t, key, i + 1)
    ensures FirstFree(t, i) == if t[i].samples == 0 then i else FirstFree(t, i + 1)
  {
  }

  lemma UpdateIs(t: Table, s: Sample)
    requires Good(t) && Counts(s)
    ensures SlotFor(t, s.key) ==
      if Find(t, s.key, 0) < |t| then Find(t, s.key, 0) else if FirstFree(t, 0) < |t| then FirstFree(t, 0) else 0
    ensures var slot := SlotFor(t, s.key);
      var e := Plus(if t[slot].samples == 0 then FREE.(key := s.key) else t[slot], RecordOf(s));
      Update(t, s) == t[slot := e] && e.totalWeight > 0.0
  {
  }

  /** The average of the entry that the sample has gone into, times the size of the job. */
  function TimeFor(t: Table, s: Sample): real
    requires Good(t) && Counts(s)
  {
    UpdateIs(t, s);
    var e := Update(t, s)[SlotFor(t, s.key)];
    e.totalMs / e.totalWeight * Units(s)
  }

  // --------------------------------------------------------------------- invariants

  /** Live entries are a prefix, with distinct keys and positive weights. */
  predicate Good(t: Table) {
    && |t| == SLOTS
    && (forall i :: FirstFree(t, 0) <= i < |t| ==> t[i].samples == 0)
    && (forall i :: 0 <= i < FirstFree(t, 0) ==> t[i].totalWeight > 0.0)
    && (forall i, j :: 0 <= i < j < FirstFree(t, 0) ==> t[i].key != t[j].key)
  }

  lemma EmptyIsGood()
    ensures Good(Empty())
  {
  }

  lemma FirstFreeIs(t: Table, n: nat)
    requires n <= |t| && (forall i :: 0 <= i < n ==> t[i].samples > 0) && (n < |t| ==> t[n].samples == 0)
    ensures FirstFree(t, 0) == n
  {
  }

  /** Writing a live entry for the key where it belongs. */
  lemma PutKeepsGood(t: Table, slot: nat, e: Entry)
    requires Good(t) && slot < |t| && slot <= FirstFree(t, 0) && e.samples > 0 && e.totalWeight > 0.0
    requires slot < FirstFree(t, 0) ==> e.key == t[slot].key
    requires slot == FirstFree(t, 0) ==> Find(t, e.key, 0) == |t|
    ensures Good(t[slot := e])
    ensures FirstFree(t[slot := e], 0) == if slot == FirstFree(t, 0) then slot + 1 else FirstFree(t, 0)
  {
    FirstFreeIs(t[slot := e], if slot == FirstFree(t, 0) then slot + 1 else FirstFree(t, 0));
  }

  lemma LoadKeepsGood(t: Table, r: Record)
    requires Good(t)
    ensures Good(Load(t, r))
  {
    var slot, free := Find(t, r.key, 0), FirstFree(t, 0);
    if r.samples > 0 && r.weight > 0.0 {
      if slot < |t| {
        PutKeepsGood(t, slot, Plus(t[slot], r));
      } else if free < |t| {
        PutKeepsGood(t, free, Entry(r.key, r.ms, r.weight, r.samples));
      }
    }
  }

  lemma UpdateKeepsGood(t: Table, s: Sample)
    requires Good(t)
    ensures Good(Update(t, s))
  {
    if Counts(s) {
      var slot := SlotFor(t, s.key);
      PutKeepsGood(t, slot, Update(t, s)[slot]);
    }
  }

  ghost function Keys(t: Table): set<string> {
    set i | 0 <= i < |t| && t[i].samples > 0 :: t[i].key
  }

  ghost function KeysUpTo(t: Table, n: nat): set<string>
    requires n <= |t|
  {
    set i | 0 <= i < n :: t[i].key
  }

  lemma {:induction false} DistinctKeysCount(t: Table, n: nat)
    requires n <= |t| && forall i, j :: 0 <= i < j < n ==> t[i].key != t[j].key
    ensures |KeysUpTo(t, n)| == n
  {
    if n > 0 {
      DistinctKeysCount(t, n - 1);
      var before, last := KeysUpTo(t, n - 1), t[n - 1].key;
      assert last !in before;
      assert KeysUpTo(t, n) == before + {last};
    }
  }

  lemma KeysOfGood(t: Table)
    requires Good(t)
    ensures |Keys(t)| == FirstFree(t, 0)
    ensures forall k :: k in Keys(t) <==> Find(t, k, 0) < |t|
  {
    DistinctKeysCount(t, FirstFree(t, 0));
    assert Keys(t) == KeysUpTo(t, FirstFree(t, 0));
  }

  // ------------------------------------------------------ the table against its log

  /** There is an entry for the key, or room for one. */
  predicate HasPlace(t: Table, key: string) {
    Find(t, key, 0) < |t| || FirstFree(t, 0) < |t|
  }

  lemma StepAgrees(t: Table, s: Sample)
    requires Good(t) && Counts(s) && HasPlace(t, s.key)
    ensures Update(t, s) == Load(t, RecordOf(s))
  {
  }

  lemma KeysAfterLoad(t: Table, r: Record)
    requires Good(t) && HasPlace(t, r.key) && r.samples > 0 && r.weight > 0.0
    ensures Keys(Load(t, r)) == Keys(t) + {r.key}
  {
    var t' := Load(t, r);
    var slot := if Find(t, r.key, 0) < |t| then Find(t, r.key, 0) else FirstFree(t, 0);
    assert t'[slot].key == r.key && t'[slot].samples > 0;
    forall k | k in Keys(t) ensures k in Keys(t') {
      var i :| 0 <= i < |t| && t[i].samples > 0 && t[i].key == k;
      assert t'[i].key == k && t'[i].samples > 0;
    }
  }

  function TotalMs(t: Table): real {
    if t == [] then 0.0 else t[0].totalMs + TotalMs(t[1..])
  }

  lemma {:induction false} TotalAfter(t: Table, i: nat, e: Entry)
    requires i < |t|
    ensures TotalMs(t[i := e]) == TotalMs(t) - t[i].totalMs + e.totalMs
  {
    if i == 0 {
      assert t[i := e][1..] == t[1..];
    } else {
      assert t[i := e][1..] == t[1..][i - 1 := e];
      TotalAfter(t[1..], i - 1, e);
    }
  }

  /** Two full tables for the same keys, of which the first holds more time. */
  ghost predicate Ahead(a: Table, b: Table) {
    && |a| == |b| == SLOTS && TotalMs(a) > TotalMs(b)
    && forall i :: 0 <= i < SLOTS ==> a[i].samples > 0 && b[i].samples > 0 && a[i].key == b[i].key
  }

  lemma SameFind(a: Table, b: Table, key: string)
    requires |a| == |b| && forall i :: 0 <= i < |a| ==> a[i].samples > 0 && b[i].samples > 0 && a[i].key == b[i].key
    ensures Find(a, key, 0) == Find(b, key, 0) && FirstFree(a, 0) == |a| == FirstFree(b, 0)
  {
  }

  lemma StaysAhead(a: Table, b: Table, s: Sample)
    requires Ahead(a, b) && Counts(s)
    ensures Ahead(Update(a, s), Load(b, RecordOf(s)))
  {
    hide TotalMs;
    SameFind(a, b, s.key);
    var slot := SlotFor(a, s.key);
    TotalAfter(a, slot, Plus(a[slot], RecordOf(s)));
    var found := Find(b, s.key, 0);
    if found < |b| { TotalAfter(b, found, Plus(b[found], RecordOf(s))); }
  }

  lemma {:induction false} NeverCatchesUp(a: Table, b: Table, samples: seq<Sample>)
    requires Ahead(a, b)
    ensures Updates(a, samples) != LoadAll(b, Logged(samples))
    decreases |samples|
  {
    hide Update, Load;
    if samples != [] {
      var s := samples[0];
      if Counts(s) {
        StaysAhead(a, b, s);
        NeverCatchesUp(Update(a, s), Load(b, RecordOf(s)), samples[1..]);
        FirstLogged(samples);
      } else {
        assert Update(a, s) == a by { NothingChanges(a, s); }
        NeverCatchesUp(a, b, samples[1..]);
        assert Logged(samples) == Logged(samples[1..]);
      }
    }
  }

  lemma NothingChanges(t: Table, s: Sample)
    requires |t| == SLOTS && !Counts(s)
    ensures Update(t, s) == t
  {
  }

  lemma FirstLogged(samples: seq<Sample>)
    requires samples != [] && Counts(samples[0])
    ensures Logged(samples) != [] && Logged(samples)[0] == RecordOf(samples[0])
    ensures Logged(samples)[1..] == Logged(samples[1..])
  {
  }

  lemma Diverges(t: Table, s: Sample)
    requires Good(t) && Counts(s) && !HasPlace(t, s.key)
    ensures Ahead(Update(t, s), Load(t, RecordOf(s)))
  {
    hide TotalMs;
    TotalAfter(t, 0, Plus(t[0], RecordOf(s)));
  }

  function KeysOf(samples: seq<Sample>): set<string> {
    if samples == [] then {}
    else (if Counts(samples[0]) then {samples[0].key} else {}) + KeysOf(samples[1..])
  }

  lemma FirstKey(samples: seq<Sample>)
    ensures samples == [] ==> KeysOf(samples) == {}
    ensures samples != [] && Counts(samples[0]) ==> KeysOf(samples) == {samples[0].key} + KeysOf(samples[1..])
    ensures samples != [] && !Counts(samples[0]) ==> KeysOf(samples) == KeysOf(samples[1..])
  {
  }

  /** After any run of updates the table is what the log, extended by the run, would be loaded as, exactly when the
      keys in the table and in the run are together at most eight. */
  lemma {:induction false} AgreesExactlyWhen(t: Table, samples: seq<Sample>)
    requires Good(t)
    ensures |t| == SLOTS
    ensures Updates(t, samples) == LoadAll(t, Logged(samples)) <==> |Keys(t) + KeysOf(samples)| <= SLOTS
    decreases |samples|
  {
    hide Update, Load, Good, Keys, KeysOf, Ahead, HasPlace, Find, FirstFree;
    GoodSize(t);
    FirstKey(samples);
    if samples == [] {
      assert Keys(t) + KeysOf(samples) == Keys(t);
      KeysFit(t);
    } else {
      var s, rest := samples[0], samples[1..];
      if !Counts(s) {
        assert Update(t, s) == t by { GoodSize(t); NothingChanges(t, s); }
        AgreesExactlyWhen(t, rest);
        assert Logged(samples) == Logged(rest);
      } else if HasPlace(t, s.key) {
        StepAgrees(t, s);
        UpdateKeepsGood(t, s);
        FirstLogged(samples);
        KeysAfterLoad(t, RecordOf(s));
        AgreesExactlyWhen(Update(t, s), rest);
        assert Keys(t) + KeysOf(samples) == Keys(Update(t, s)) + KeysOf(rest);
      } else {
        Diverges(t, s);
        FirstLogged(samples);
        NeverCatchesUp(Update(t, s), Load(t, RecordOf(s)), rest);
        TooManyKeys(t, s.key, KeysOf(samples));
      }
    }
  }

  lemma GoodSize(t: Table)
    requires Good(t)
    ensures |t| == SLOTS
  {
  }

  lemma KeysFit(t: Table)
    requires Good(t)
    ensures |Keys(t)| <= SLOTS
  {
    KeysOfGood(t);
  }

  lemma TooManyKeys(t: Table, key: string, keys: set<string>)
    requires Good(t) && !HasPlace(t, key) && key in keys
    ensures |Keys(t) + keys| > SLOTS
  {
    KeysOfGood(t);
    assert key !in Keys(t);
    Common.SubsetSize(Keys(t) + {key}, Keys(t) + keys);
  }

  lemma {:induction false} LoadInTwo(t: Table, log: seq<Record>, more: seq<Record>)
    ensures LoadAll(t, log + more) == LoadAll(LoadAll(t, log), more)
    decreases |log|
  {
    hide Load;
    if log == [] {
      assert log + more == more;
    } else {
      assert (log + more)[1..] == log[1..] + more;
      LoadInTwo(Load(t, log[0]), log[1..], more);
    }
  }

  lemma {:induction false} LoadAllKeepsGood(t: Table, log: seq<Record>)
    requires Good(t)
    ensures Good(LoadAll(t, log))
    decreases |log|
  {
    hide Good, Load;
    if log != [] {
      LoadKeepsGood(t, log[0]);
      LoadAllKeepsGood(Load(t, log[0]), log[1..]);
    }
  }

  /** For the log of any earlier runs: a process that loads it and then makes any updates holds the same table as one
      started afterwards, exactly when the keys are at most eight. */
  lemma RestartExactlyWhen(log: seq<Record>, samples: seq<Sample>)
    ensures Good(Replay(log))
    ensures Updates(Replay(log), samples) == Replay(log + Logged(samples)) <==>
            |Keys(Replay(log)) + KeysOf(samples)| <= SLOTS
  {
    EmptyIsGood();
    LoadAllKeepsGood(Empty(), log);
    LoadInTwo(Empty(), log, Logged(samples));
    AgreesExactlyWhen(Replay(log), samples);
  }

  lemma {:induction false} KeysCome(samples: seq<Sample>, key: string)
    requires key in KeysOf(samples)
    ensures exists i :: 0 <= i < |samples| && samples[i].key == key
  {
    if !Counts(samples[0]) || samples[0].key != key {
      KeysCome(samples[1..], key);
      var i :| 0 <= i < |samples[1..]| && samples[1..][i].key == key;
      assert samples[i + 1].key == key;
    }
  }

  ghost predicate DifferentKeys(samples: seq<Sample>) {
    && (forall i :: 0 <= i < |samples| ==> Counts(samples[i]))
    && forall i, j :: 0 <= i < j < |samples| ==> samples[i].key != samples[j].key
  }

  lemma {:induction false} DifferentKeysCount(samples: seq<Sample>)
    requires DifferentKeys(samples)
    ensures |KeysOf(samples)| == |samples|
  {
    if samples != [] {
      DifferentKeysCount(samples[1..]);
      if samples[0].key in KeysOf(samples[1..]) { KeysCome(samples[1..], samples[0].key); }
    }
  }

  /** Measurements with more than eight different keys leave a table that a restart does not rebuild; for example
      nine with the keys k, kk, kkk and so on. */
  lemma NinthKeyDiffers(samples: seq<Sample>)
    ensures DifferentKeys(samples) && |samples| > SLOTS ==> Updates(Empty(), samples) != Replay(Logged(samples))
    ensures var nine := seq(9, i requires 0 <= i < 9 => Sample(seq(i + 1, _ => 'k'), 1.0, 1.0));
      DifferentKeys(nine) && |nine| > SLOTS
  {
    var nine := seq(9, i requires 0 <= i < 9 => Sample(seq(i + 1, _ => 'k'), 1.0, 1.0));
    assert forall i :: 0 <= i < 9 ==> |nine[i].key| == i + 1;
    if DifferentKeys(samples) && |samples| > SLOTS { TooManyDiffer(samples); }
  }

  lemma TooManyDiffer(samples: seq<Sample>)
    requires DifferentKeys(samples) && |samples| > SLOTS
    ensures Updates(Empty(), samples) != Replay(Logged(samples))
  {
    hide Good, Keys, KeysOf, Updates, DifferentKeys;
    DifferentKeysCount(samples);
    EmptyIsGood();
    Common.SubsetSize(KeysOf(samples), Keys(Empty()) + KeysOf(samples));
    AgreesExactlyWhen(Empty(), samples);
  }

  // ----------------------------------------------------------- what the entries hold

  datatype Totals = Totals(ms: real, weight: real, samples: nat)

  /** What the table holds for a key. */
  function TotalsOf(t: Table, key: string): Totals {
    var slot := Find(t, key, 0);
    if slot < |t| then Totals(t[slot].totalMs, t[slot].totalWeight, t[slot].samples) else Totals(0.0, 0.0, 0)
  }

  /** What the records of a log say about a key. */
  function SumOf(log: seq<Record>, key: string): Totals {
    if log == [] then Totals(0.0, 0.0, 0)
    else
      var r, rest := log[0], SumOf(log[1..], key);
      if r.key == key && r.samples > 0 && r.weight > 0.0
      then Totals(r.ms + rest.ms, r.weight + rest.weight, r.samples + rest.samples) else rest
  }

  function RecordKeys(log: seq<Record>): set<string> {
    if log == [] then {}
    else (if log[0].samples > 0 && log[0].weight > 0.0 then {log[0].key} else {}) + RecordKeys(log[1..])
  }

  function Sum(a: Totals, b: Totals): Totals {
    Totals(a.ms + b.ms, a.weight + b.weight, a.samples + b.samples)
  }

  lemma FindIs(t: Table, key: string, slot: nat)
    requires slot < |t| && t[slot].samples > 0 && t[slot].key == key
    requires forall i :: 0 <= i < slot ==> t[i].samples == 0 || t[i].key != key
    ensures Find(t, key, 0) == slot
  {
  }

  lemma FindNone(t: Table, key: string)
    requires forall i :: 0 <= i < |t| ==> t[i].samples == 0 || t[i].key != key
    ensures Find(t, key, 0) == |t|
  {
  }

  lemma PutTotals(t: Table, slot: nat, e: Entry, key: string)
    requires Good(t) && slot < |t| && e.samples > 0
    requires slot == Find(t, e.key, 0) || (Find(t, e.key, 0) == |t| && slot == FirstFree(t, 0))
    ensures TotalsOf(t[slot := e], key) ==
            if key == e.key then Totals(e.totalMs, e.totalWeight, e.samples) else TotalsOf(t, key)
  {
    var t' := t[slot := e];
    if e.key == key {
      FindIs(t', key, slot);
    } else if Find(t, key, 0) < |t| {
      FindIs(t', key, Find(t, key, 0));
    } else {
      FindNone(t', key);
    }
  }

  lemma OneRecordAdds(t: Table, r: Record, key: string)
    requires Good(t) && HasPlace(t, r.key) && r.samples > 0 && r.weight > 0.0
    ensures TotalsOf(Load(t, r), key) ==
            Sum(TotalsOf(t, key), if r.key == key then Totals(r.ms, r.weight, r.samples) else Totals(0.0, 0.0, 0))
  {
    hide Good, Find, FirstFree, Load;
    LoadIs(t, r);
    var slot := Find(t, r.key, 0);
    if slot < |t| {
      PutTotals(t, slot, Plus(t[slot], r), key);
    } else {
      PutTotals(t, FirstFree(t, 0), Entry(r.key, r.ms, r.weight, r.samples), key);
    }
  }

  lemma LoadIs(t: Table, r: Record)
    requires HasPlace(t, r.key) && r.samples > 0 && r.weight > 0.0
    ensures var slot, free := Find(t, r.key, 0), FirstFree(t, 0);
      Load(t, r) == if slot < |t| then t[slot := Plus(t[slot], r)]
                    else t[free := Entry(r.key, r.ms, r.weight, r.samples)]
  {
  }

  /** With at most eight keys the table holds, for each key, the sums of its records. */
  lemma {:induction false} TableHoldsSums(t: Table, log: seq<Record>, key: string)
    requires Good(t) && |Keys(t) + RecordKeys(log)| <= SLOTS
    ensures TotalsOf(LoadAll(t, log), key) == Sum(TotalsOf(t, key), SumOf(log, key))
    decreases |log|
  {
    hide Good, Load, Keys, HasPlace, TotalsOf;
    if log != [] {
      var r, rest := log[0], log[1..];
      if r.samples > 0 && r.weight > 0.0 {
        if !HasPlace(t, r.key) { TooManyKeys(t, r.key, RecordKeys(log)); }
        OneRecordAdds(t, r, key);
        LoadKeepsGood(t, r);
        KeysAfterLoad(t, r);
        assert Keys(t) + RecordKeys(log) == Keys(Load(t, r)) + RecordKeys(rest);
        TableHoldsSums(Load(t, r), rest, key);
      } else {
        assert Load(t, r) == t by { SkippedRecord(t, r); }
        assert RecordKeys(log) == RecordKeys(rest);
        TableHoldsSums(t, rest, key);
      }
    }
  }

  // ------------------------------------------------- what the measurements add up to

  /** What one measurement adds to a key: its time, its size, where one that is not positive counts as 1, and one. A
      measurement without a key or a positive time adds nothing. */
  function Measurement(s: Sample, key: string): Totals {
    if s.key == key && key != "" && s.elapsed > 0.0 then Totals(s.elapsed, if s.units <= 0.0 then 1.0 else s.units, 1)
    else Totals(0.0, 0.0, 0)
  }

  function Measured(samples: seq<Sample>, key: string): Totals {
    if samples == [] then Totals(0.0, 0.0, 0) else Sum(Measurement(samples[0], key), Measured(samples[1..], key))
  }

  lemma {:induction false} LoggedSums(samples: seq<Sample>, key: string)
    ensures SumOf(Logged(samples), key) == Measured(samples, key) && RecordKeys(Logged(samples)) == KeysOf(samples)
  {
    if samples != [] {
      LoggedSums(samples[1..], key);
      if Counts(samples[0]) { FirstLogged(samples); } else { assert Logged(samples) == Logged(samples[1..]); }
    }
  }

  /** As long as the keys are at most eight, updates add to a key's entry exactly what was measured for it. */
  lemma UpdatesAddUp(t: Table, samples: seq<Sample>, key: string)
    requires Good(t) && |Keys(t) + KeysOf(samples)| <= 8
    ensures TotalsOf(Updates(t, samples), key) == Sum(TotalsOf(t, key), Measured(samples, key))
  {
    hide Good, Keys, TotalsOf;
    AgreesExactlyWhen(t, samples);
    LoggedSums(samples, key);
    TableHoldsSums(t, Logged(samples), key);
  }

  lemma {:induction false} MeasuredAppends(samples: seq<Sample>, s: Sample, key: string)
    ensures Measured(samples + [s], key) == Sum(Measured(samples, key), Measurement(s, key))
    ensures KeysOf(samples + [s]) == KeysOf(samples) + if Counts(s) then {s.key} else {}
  {
    hide Measurement;
    if samples == [] {
      assert samples + [s] == [s] && [s][1..] == [];
    } else {
      assert (samples + [s])[1..] == samples[1..] + [s];
      MeasuredAppends(samples[1..], s, key);
    }
  }

  lemma {:induction false} UpdatesAppend(t: Table, samples: seq<Sample>, s: Sample)
    requires |t| == SLOTS
    ensures Updates(t, samples + [s]) == Update(Updates(t, samples), s)
    decreases |samples|
  {
    hide Update;
    if samples == [] {
      assert samples + [s] == [s];
    } else {
      assert (samples + [s])[1..] == samples[1..] + [s];
      UpdatesAppend(Update(t, samples[0]), samples[1..], s);
    }
  }

  lemma {:induction false} UpdatesKeepGood(t: Table, samples: seq<Sample>)
    requires Good(t)
    ensures Good(Updates(t, samples))
    decreases |samples|
  {
    hide Good, Update;
    GoodSize(t);
    if samples != [] {
      UpdateKeepsGood(t, samples[0]);
      UpdatesKeepGood(Update(t, samples[0]), samples[1..]);
    }
  }

  /** The entry that a sample has gone into is its key's. */
  lemma UpdatedEntry(t: Table, s: Sample)
    requires Good(t) && Counts(s) && HasPlace(t, s.key)
    ensures var m := TotalsOf(Update(t, s), s.key); m.weight > 0.0 && TimeFor(t, s) == m.ms / m.weight * Units(s)
  {
    hide Good, Find, FirstFree, Update, TotalsOf;
    UpdateIs(t, s);
    var slot := SlotFor(t, s.key);
    PutTotals(t, slot, Update(t, s)[slot], s.key);
  }

  lemma EntryAfter(samples: seq<Sample>, s: Sample)
    requires Counts(s) && |KeysOf(samples + [s])| <= 8
    ensures var t := Updates(Empty(), samples);
      Good(t) && HasPlace(t, s.key) && TotalsOf(Update(t, s), s.key) == Measured(samples + [s], s.key)
  {
    hide Good, Update, Keys, HasPlace, TotalsOf, KeysOf;
    EmptyIsGood();
    UpdatesKeepGood(Empty(), samples);
    NoKeys();
    NoTotals(s.key);
    assert Keys(Empty()) + KeysOf(samples + [s]) == KeysOf(samples + [s]);
    UpdatesAddUp(Empty(), samples + [s], s.key);
    UpdatesAppend(Empty(), samples, s);
    PlaceForNext(samples, s);
  }

  /** The time returned for a job, after any earlier measurements of at most eight keys in all: the mean time per size
      of all measurements with the job's key, this one included, times the job's size. For a key's first measurement
      that is the time measured. */
  lemma TimeIsMean(samples: seq<Sample>, s: Sample)
    requires s.key != "" && s.elapsed > 0.0 && |KeysOf(samples + [s])| <= 8
    ensures var t, m := Updates(Empty(), samples), Measured(samples + [s], s.key);
      Good(t) && m.weight > 0.0 && TimeFor(t, s) == m.ms / m.weight * (if s.units <= 0.0 then 1.0 else s.units)
    ensures Measured(samples, s.key).samples == 0 ==> TimeFor(Updates(Empty(), samples), s) == s.elapsed
  {
    hide Good, Update, HasPlace, TotalsOf, KeysOf, TimeFor, Measured, Updates;
    EntryAfter(samples, s);
    UpdatedEntry(Updates(Empty(), samples), s);
    if Measured(samples, s.key).samples == 0 {
      FirstMeasured(samples, s);
      Cancels(s.elapsed, Units(s));
    }
  }

  lemma FirstMeasured(samples: seq<Sample>, s: Sample)
    requires Counts(s) && Measured(samples, s.key).samples == 0
    ensures Measured(samples + [s], s.key) == Totals(s.elapsed, Units(s), 1)
  {
    hide Measured;
    MeasuredAppends(samples, s, s.key);
    NothingMeasured(samples, s.key);
  }

  lemma Cancels(x: real, y: real)
    requires y > 0.0
    ensures x / y * y == x
  {
  }

  /** With eight keys in the table, a measurement for a ninth is added to the first entry, under that entry's key. */
  lemma NinthKeyJoinsFirst(t: Table, s: Sample)
    requires Good(t) && s.key != "" && s.elapsed > 0.0 && !HasPlace(t, s.key)
    ensures TotalsOf(Update(t, s), t[0].key) == Sum(TotalsOf(t, t[0].key), Measurement(s, s.key))
    ensures forall i :: 1 <= i < |t| ==> Update(t, s)[i] == t[i]
  {
    var e := Update(t, s)[0];
    FindIs(t, t[0].key, 0);
    FindIs(Update(t, s), t[0].key, 0);
  }

  lemma NoKeys()
    ensures Keys(Empty()) == {}
  {
  }

  lemma NoTotals(key: string)
    ensures TotalsOf(Empty(), key) == Totals(0.0, 0.0, 0)
  {
    FindNone(Empty(), key);
  }

  lemma {:induction false} NothingMeasured(samples: seq<Sample>, key: string)
    requires Measured(samples, key).samples == 0
    ensures Measured(samples, key) == Totals(0.0, 0.0, 0)
  {
    hide Measurement;
    if samples != [] {
      MeasuresOrNot(samples[0], key);
      NothingMeasured(samples[1..], key);
    }
  }

  lemma MeasuresOrNot(s: Sample, key: string)
    ensures Measurement(s, key).samples > 0 || Measurement(s, key) == Totals(0.0, 0.0, 0)
  {
  }

  lemma {:induction false} KeysAfterUpdates(t: Table, samples: seq<Sample>)
    requires Good(t) && |Keys(t) + KeysOf(samples)| <= SLOTS
    ensures Good(Updates(t, samples)) && Keys(Updates(t, samples)) == Keys(t) + KeysOf(samples)
    decreases |samples|
  {
    hide Good, Keys, Update, Load, HasPlace;
    GoodSize(t);
    if samples != [] {
      var s, rest := samples[0], samples[1..];
      if Counts(s) {
        if !HasPlace(t, s.key) { TooManyKeys(t, s.key, KeysOf(samples)); }
        StepAgrees(t, s);
        UpdateKeepsGood(t, s);
        KeysAfterLoad(t, RecordOf(s));
        assert Keys(t) + KeysOf(samples) == Keys(Update(t, s)) + KeysOf(rest);
        KeysAfterUpdates(Update(t, s), rest);
      } else {
        NothingChanges(t, s);
        KeysAfterUpdates(t, rest);
      }
    }
  }

  lemma PlaceForNext(samples: seq<Sample>, s: Sample)
    requires Counts(s) && |KeysOf(samples + [s])| <= SLOTS
    ensures HasPlace(Updates(Empty(), samples), s.key)
  {
    hide Good, Keys, HasPlace;
    var t := Updates(Empty(), samples);
    MeasuredAppends(samples, s, s.key);
    Common.SubsetSize(KeysOf(samples), KeysOf(samples + [s]));
    EmptyIsGood();
    NoKeys();
    assert Keys(Empty()) + KeysOf(samples) == KeysOf(samples);
    KeysAfterUpdates(Empty(), samples);
    assert Keys(t) + {s.key} == KeysOf(samples + [s]);
    if !HasPlace(t, s.key) { TooManyKeys(t, s.key, {s.key}); }
  }

  lemma SkippedRecord(t: Table, r: Record)
    requires r.samples == 0 || r.weight <= 0.0
    ensures Load(t, r) == t
  {
  }
}
