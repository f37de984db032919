/** The daily quota of expert users: a table of 64 slots (src/server.c:646-691). */
module Quota {

  const SLOTS := 64
  const MAX_JOBS := 500
  const MAX_BYTES := 0x8000_0000
  const SIZE_T := 0x1_0000_0000_0000_0000

  /** `fp_expert_usage_entry`. */
  datatype Entry = Entry(userId: nat, day: int, jobs: nat, bytes: nat)

  type Table = seq<Entry>

  datatype Request = Request(userId: nat, files: nat, bytes: nat, today: int)

  datatype Verdict = Admitted | Busy | JobLimit | ByteLimit

  /** What keeps the additions to a slot's totals from wrapping around; the server passes at most 10 files
      and 100 MiB. */
  predicate Fits(r: Request) {
    r.files < SIZE_T / 2 && r.bytes < SIZE_T / 2
  }

  predicate Matches(e: Entry, userId: nat, today: int) {
    e.userId == userId && e.day == today
  }

  predicate Stale(e: Entry, today: int) {
    e.userId == 0 || e.day != today
  }

  /** The first slot from i on that is the user's or free today; |t| when there is none. */
  function SlotFor(t: Table, userId: nat, today: int, i: nat): (slot: nat)
    requires i <= |t|
    ensures i <= slot <= |t|
    ensures slot < |t| ==> Matches(t[slot], userId, today) || Stale(t[slot], today)
    ensures forall k :: i <= k < slot ==> !Matches(t[k], userId, today) && !Stale(t[k], today)
    decreases |t| - i
  {
    if i == |t| || Matches(t[i], userId, today) || Stale(t[i], today) then i else SlotFor(t, userId, today, i + 1)
  }

  function Claim(e: Entry, userId: nat, today: int): Entry {
    if Matches(e, userId, today) then e else Entry(userId, today, 0, 0)
  }

  function Charge(e: Entry, r: Request): (Entry, Verdict) {
    if (e.jobs + r.files) % SIZE_T > MAX_JOBS then (e, JobLimit)
    else if (e.bytes + r.bytes) % SIZE_T > MAX_BYTES then (e, ByteLimit)
    else (e.(jobs := (e.jobs + r.files) % SIZE_T, bytes := (e.bytes + r.bytes) % SIZE_T), Admitted)
  }

  function Track(t: Table, r: Request): (Table, Verdict) {
    if r.userId == 0 then (t, Admitted)
    else
      var slot := SlotFor(t, r.userId, r.today, 0);
      if slot == |t| then (t, Busy)
      else
        var charged := Charge(Claim(t[slot], r.userId, r.today), r);
        (t[slot := charged.0], charged.1)
  }

  class UsageTable {
    const entries: array<Entry>

    constructor ()
      ensures fresh(entries) && entries[..] == Unused()
    {
      entries := new Entry[SLOTS](_ => Entry(0, 0, 0, 0));
      new;
      assert entries[..] == Unused();
    }

    /** `fp_track_expert_usage`. */
    method TrackExpertUsage(r: Request) returns (verdict: Verdict)
      modifies entries
      ensures (entries[..], verdict) == Track(old(entries[..]), r)
    {
      if r.userId == 0 { return Admitted; }
      ghost var was := entries[..];
      var slot := 0;
      while slot < entries.Length
        invariant slot <= entries.Length && entries[..] == was
        invariant SlotFor(was, r.userId, r.today, slot) == SlotFor(was, r.userId, r.today, 0)
      {
        if entries[slot].userId == r.userId && entries[slot].day == r.today { break; }
        if entries[slot].userId == 0 || entries[slot].day != r.today {
          entries[slot] := Entry(r.userId, r.today, 0, 0);
          break;
        }
        slot := slot + 1;
      }
      if slot == entries.Length { return Busy; }
      var entry := entries[slot];
      assert entry == Claim(was[slot], r.userId, r.today);
      if (entry.jobs + r.files) % SIZE_T > MAX_JOBS {
        verdict := JobLimit;
      } else if (entry.bytes + r.bytes) % SIZE_T > MAX_BYTES {
        verdict := ByteLimit;
      } else {
        entries[slot] := entry.(jobs := (entry.jobs + r.files) % SIZE_T, bytes := (entry.bytes + r.bytes) % SIZE_T);
        verdict := Admitted;
      }
      assert entries[..] == was[slot := Charge(entry, r).0];
    }
  }

  function Unused(): Table {
    seq(SLOTS, _ => Entry(0, 0, 0, 0))
  }

  // ------------------------------------------------------------ the ideal per-day map

  datatype Usage = Usage(jobs: nat, bytes: nat)

  /** What each user who was given a slot has used on the latest day. */
  datatype Day = Day(today: int, use: map<nat, Usage>)

  function UseOn(d: Day, today: int): map<nat, Usage> {
    if d.today == today then d.use else map[]
  }

  function Used(use: map<nat, Usage>, userId: nat): Usage {
    if userId in use then use[userId] else Usage(0, 0)
  }

  function ChargeIdeal(u: Usage, r: Request): (Usage, Verdict) {
    if u.jobs + r.files > MAX_JOBS then (u, JobLimit)
    else if u.bytes + r.bytes > MAX_BYTES then (u, ByteLimit)
    else (Usage(u.jobs + r.files, u.bytes + r.bytes), Admitted)
  }

  function TrackIdeal(d: Day, r: Request): (Day, Verdict) {
    var use := UseOn(d, r.today);
    if r.userId == 0 then (d, Admitted)
    else if r.userId !in use && |use| >= SLOTS then (d, Busy)
    else
      var charged := ChargeIdeal(Used(use, r.userId), r);
      (Day(r.today, use[r.userId := charged.0]), charged.1)
  }

  // ------------------------------------------------------------------ the refinement

  ghost predicate Holds(e: Entry, d: Day) {
    e.day == d.today && e.userId != 0 && e.userId in d.use && d.use[e.userId] == Usage(e.jobs, e.bytes)
  }

  ghost predicate DistinctUsers(t: Table, n: nat) {
    forall i, j :: 0 <= i < j < n && j < |t| ==> t[i].userId != t[j].userId
  }

  ghost predicate WithinLimits(d: Day) {
    forall u :: u in d.use ==> d.use[u].jobs <= MAX_JOBS && d.use[u].bytes <= MAX_BYTES
  }

  ghost predicate HasSlot(t: Table, n: nat, userId: nat) {
    exists i :: 0 <= i < n && i < |t| && t[i].userId == userId
  }

  ghost predicate PrefixHolds(t: Table, d: Day, n: nat) {
    forall i :: 0 <= i < n && i < |t| ==> Holds(t[i], d)
  }

  ghost predicate RestStale(t: Table, today: int, n: nat) {
    forall i :: n <= i < |t| ==> t[i].userId == 0 || t[i].day < today
  }

  ghost predicate AllHaveSlots(t: Table, use: map<nat, Usage>, n: nat) {
    forall u :: u in use ==> HasSlot(t, n, u)
  }

  /** Today's entries are a prefix of the table, with distinct users, and hold the map. */
  ghost predicate Refines(t: Table, d: Day) {
    && |t| == SLOTS && |d.use| <= SLOTS && DistinctUsers(t, |d.use|) && WithinLimits(d)
    && PrefixHolds(t, d, |d.use|) && RestStale(t, d.today, |d.use|) && AllHaveSlots(t, d.use, |d.use|)
  }

  /** On a later day nobody holds a slot yet. */
  lemma NextDay(t: Table, d: Day, today: int)
    requires Refines(t, d) && d.today <= today
    ensures Refines(t, Day(today, UseOn(d, today)))
  {
  }

  lemma SlotOfUser(t: Table, d: Day, userId: nat)
    requires Refines(t, d) && userId != 0
    ensures var slot := SlotFor(t, userId, d.today, 0);
      if userId in d.use then slot < |d.use| && t[slot].userId == userId
      else slot == |d.use| && (slot < |t| ==> Stale(t[slot], d.today) && !Matches(t[slot], userId, d.today))
  {
    var slot, n := SlotFor(t, userId, d.today, 0), |d.use|;
    if userId in d.use {
      var i :| 0 <= i < n && t[i].userId == userId;
      assert Matches(t[i], userId, d.today);
      assert Holds(t[slot], d);
    } else {
      forall i | 0 <= i < n ensures !Matches(t[i], userId, d.today) && !Stale(t[i], d.today) {
        assert Holds(t[i], d);
      }
      assert n < |t| ==> Stale(t[n], d.today);
    }
  }

  function Put(d: Day, userId: nat, jobs: nat, bytes: nat): Day {
    d.(use := d.use[userId := Usage(jobs, bytes)])
  }

  lemma PutCount(d: Day, userId: nat, jobs: nat, bytes: nat)
    ensures |Put(d, userId, jobs, bytes).use| == if userId in d.use then |d.use| else |d.use| + 1
  {
    var use, use' := d.use, Put(d, userId, jobs, bytes).use;
    assert use'.Keys == use.Keys + {userId};
    assert |use| == |use.Keys| && |use'| == |use'.Keys|;
    if userId in use { assert use'.Keys == use.Keys; }
  }

  lemma PutHolds(t: Table, d: Day, n: nat, slot: nat, userId: nat, jobs: nat, bytes: nat)
    requires slot < |t| && userId != 0 && PrefixHolds(t, d, n) && DistinctUsers(t, n)
    requires if slot < n then t[slot].userId == userId else slot == n && userId !in d.use
    ensures var t' := t[slot := Entry(userId, d.today, jobs, bytes)]; var n' := if slot < n then n else n + 1;
      PrefixHolds(t', Put(d, userId, jobs, bytes), n') && DistinctUsers(t', n')
  {
    var t' := t[slot := Entry(userId, d.today, jobs, bytes)];
    var n' := if slot < n then n else n + 1;
    forall i | 0 <= i < n' && i < |t'| ensures Holds(t'[i], Put(d, userId, jobs, bytes)) {
      if i != slot { assert Holds(t[i], d) && t[i].userId != userId; }
    }
    forall i, j | 0 <= i < j < n' && j < |t'| ensures t'[i].userId != t'[j].userId {
      if j == n && slot == n { assert Holds(t[i], d); }
    }
  }

  lemma PutSlots(t: Table, use: map<nat, Usage>, n: nat, slot: nat, e: Entry)
    requires slot < |t| && AllHaveSlots(t, use, n)
    requires if slot < n then t[slot].userId == e.userId else slot == n
    ensures AllHaveSlots(t[slot := e], use[e.userId := Usage(e.jobs, e.bytes)], if slot < n then n else n + 1)
  {
    var t', n' := t[slot := e], if slot < n then n else n + 1;
    assert t'[slot].userId == e.userId;
    forall v | v in use ensures HasSlot(t', n', v) {
      var i :| 0 <= i < n && i < |t| && t[i].userId == v;
      assert t'[i].userId == v;
    }
  }

  /** Charging the user's entry, or giving a new user the first free slot. */
  lemma PutRefines(t: Table, d: Day, slot: nat, userId: nat, jobs: nat, bytes: nat)
    requires Refines(t, d) && slot < |t| && userId != 0 && jobs <= MAX_JOBS && bytes <= MAX_BYTES
    requires if userId in d.use then slot < |d.use| && t[slot].userId == userId else slot == |d.use|
    ensures Refines(t[slot := Entry(userId, d.today, jobs, bytes)], Put(d, userId, jobs, bytes))
  {
    hide PrefixHolds, DistinctUsers, AllHaveSlots;
    PutCount(d, userId, jobs, bytes);
    PutHolds(t, d, |d.use|, slot, userId, jobs, bytes);
    PutSlots(t, d.use, |d.use|, slot, Entry(userId, d.today, jobs, bytes));
  }

  /** One request: same verdict, and the table still holds the map. */
  lemma TrackInOrder(t: Table, d: Day, r: Request)
    requires Refines(t, d) && Fits(r) && !Late(d.today, r)
    ensures Track(t, r).1 == TrackIdeal(d, r).1 && Refines(Track(t, r).0, TrackIdeal(d, r).0)
  {
    hide Refines, SlotFor;
    if r.userId != 0 {
      NextDay(t, d, r.today);
      var d1 := Day(r.today, UseOn(d, r.today));
      SlotOfUser(t, d1, r.userId);
      assert |t| == SLOTS && |d1.use| <= SLOTS by { RefinesSize(t, d1); }
      if r.userId !in d1.use && |d1.use| == SLOTS {
        FullDay(d, r.today);
      } else {
        ChargeRefines(t, d1, r);
      }
    }
  }

  lemma FullDay(d: Day, today: int)
    requires |UseOn(d, today)| == SLOTS
    ensures Day(today, UseOn(d, today)) == d
  {
  }

  lemma RefinesSize(t: Table, d: Day)
    requires Refines(t, d)
    ensures |t| == SLOTS && |d.use| <= SLOTS
  {
  }

  lemma RefinesHolds(t: Table, d: Day, i: nat)
    requires Refines(t, d) && i < |d.use|
    ensures |t| == SLOTS && |d.use| <= SLOTS && Holds(t[i], d)
    ensures d.use[t[i].userId].jobs <= MAX_JOBS && d.use[t[i].userId].bytes <= MAX_BYTES
  {
  }

  lemma ChargeRefines(t: Table, d: Day, r: Request)
    requires Refines(t, d) && Fits(r) && r.userId != 0 && d.today == r.today
    requires r.userId in d.use || |d.use| < SLOTS
    ensures Track(t, r).1 == TrackIdeal(d, r).1 && Refines(Track(t, r).0, TrackIdeal(d, r).0)
  {
    hide Refines, SlotFor, Charge, ChargeIdeal;
    SlotOfUser(t, d, r.userId);
    RefinesSize(t, d);
    var slot := SlotFor(t, r.userId, r.today, 0);
    if r.userId in d.use { RefinesHolds(t, d, slot); }
    var e := Claim(t[slot], r.userId, r.today);
    assert e == Entry(r.userId, d.today, e.jobs, e.bytes) && Used(d.use, r.userId) == Usage(e.jobs, e.bytes);
    SameCharge(e, r);
    var charged := Charge(e, r).0;
    PutRefines(t, d, slot, r.userId, charged.jobs, charged.bytes);
  }

  lemma SameCharge(e: Entry, r: Request)
    requires Fits(r) && e.jobs <= MAX_JOBS && e.bytes <= MAX_BYTES
    ensures var c := Charge(e, r); ChargeIdeal(Usage(e.jobs, e.bytes), r) == (Usage(c.0.jobs, c.0.bytes), c.1)
    ensures var c := Charge(e, r).0;
      c.jobs <= MAX_JOBS && c.bytes <= MAX_BYTES && c == Entry(e.userId, e.day, c.jobs, c.bytes)
  {
  }

  /** A request is turned away as "Server busy" exactly when all slots are held on its day by other users; for the
      latest day that is when 64 others have been served. */
  lemma BusyExactlyWhen(t: Table, d: Day, r: Request)
    requires Refines(t, d) && Fits(r) && r.userId != 0
    ensures Track(t, r).1 == Busy <==>
      forall i :: 0 <= i < SLOTS ==> !Stale(t[i], r.today) && t[i].userId != r.userId
    ensures !Late(d.today, r) ==>
      (Track(t, r).1 == Busy <==> r.userId !in UseOn(d, r.today) && |UseOn(d, r.today)| == SLOTS)
  {
    hide Refines, Track, TrackIdeal;
    if !Late(d.today, r) { TrackInOrder(t, d, r); }
    assert |t| == SLOTS && |d.use| <= SLOTS by { RefinesSize(t, d); }
    BusyTable(t, r);
    BusyIdeal(d, r);
  }

  lemma BusyTable(t: Table, r: Request)
    requires r.userId != 0 && |t| == SLOTS
    ensures Track(t, r).1 == Busy <==>
      forall i :: 0 <= i < SLOTS ==> !Stale(t[i], r.today) && t[i].userId != r.userId
  {
  }

  lemma BusyIdeal(d: Day, r: Request)
    requires r.userId != 0 && |d.use| <= SLOTS
    ensures TrackIdeal(d, r).1 == Busy <==> r.userId !in UseOn(d, r.today) && |UseOn(d, r.today)| == SLOTS
  {
    var use := UseOn(d, r.today);
    assert |use| <= SLOTS;
    IdealVerdict(d, r);
    hide TrackIdeal, UseOn, ChargeIdeal, Used;
    ChargeAdds(Used(use, r.userId), r);
  }

  lemma IdealVerdict(d: Day, r: Request)
    requires r.userId != 0
    ensures var use := UseOn(d, r.today);
      TrackIdeal(d, r).1 ==
      if r.userId !in use && |use| >= SLOTS then Busy else ChargeIdeal(Used(use, r.userId), r).1
  {
    hide UseOn, ChargeIdeal, Used;
  }

  // ------------------------------------------------------------------- every history

  predicate AllFit(reqs: seq<Request>) {
    forall i :: 0 <= i < |reqs| ==> Fits(reqs[i])
  }

  /** The request is for an earlier day than the latest one tracked. */
  predicate Late(day: int, r: Request) {
    r.userId != 0 && r.today < day
  }

  /** The days of the requests that are tracked do not go back. */
  predicate InOrder(day: int, reqs: seq<Request>)
    decreases |reqs|
  {
    reqs == [] ||
    (!Late(day, reqs[0]) && InOrder(if reqs[0].userId == 0 then day else reqs[0].today, reqs[1..]))
  }

  function Tables(t: Table, reqs: seq<Request>): Table
    decreases |reqs|
  {
    if reqs == [] then t else Tables(Track(t, reqs[0]).0, reqs[1..])
  }

  function Verdicts(t: Table, reqs: seq<Request>): (v: seq<Verdict>)
    ensures |v| == |reqs|
    decreases |reqs|
  {
    if reqs == [] then [] else [Track(t, reqs[0]).1] + Verdicts(Track(t, reqs[0]).0, reqs[1..])
  }

  function Days(d: Day, reqs: seq<Request>): Day
    decreases |reqs|
  {
    if reqs == [] then d else Days(TrackIdeal(d, reqs[0]).0, reqs[1..])
  }

  function IdealVerdicts(d: Day, reqs: seq<Request>): (v: seq<Verdict>)
    ensures |v| == |reqs|
    decreases |reqs|
  {
    if reqs == [] then [] else [TrackIdeal(d, reqs[0]).1] + IdealVerdicts(TrackIdeal(d, reqs[0]).0, reqs[1..])
  }

  lemma {:induction false} HistoryRefines(t: Table, d: Day, reqs: seq<Request>)
    requires Refines(t, d) && AllFit(reqs) && InOrder(d.today, reqs)
    ensures Verdicts(t, reqs) == IdealVerdicts(d, reqs) && Refines(Tables(t, reqs), Days(d, reqs))
    decreases |reqs|
  {
    hide Refines, Track, TrackIdeal;
    if reqs != [] {
      TrackInOrder(t, d, reqs[0]);
      InOrderNext(d, reqs);
      HistoryRefines(Track(t, reqs[0]).0, TrackIdeal(d, reqs[0]).0, reqs[1..]);
    }
  }

  lemma DayMoves(d: Day, r: Request)
    requires !Late(d.today, r)
    ensures d.today <= TrackIdeal(d, r).0.today
    ensures if r.userId == 0 then TrackIdeal(d, r).0 == d else TrackIdeal(d, r).0.today <= r.today
  {
  }

  lemma InOrderNext(d: Day, reqs: seq<Request>)
    requires reqs != [] && InOrder(d.today, reqs)
    ensures InOrder(TrackIdeal(d, reqs[0]).0.today, reqs[1..]) && d.today <= TrackIdeal(d, reqs[0]).0.today
  {
    hide TrackIdeal;
    DayMoves(d, reqs[0]);
    InOrderFrom(if reqs[0].userId == 0 then d.today else reqs[0].today, TrackIdeal(d, reqs[0]).0.today, reqs[1..]);
  }

  lemma {:induction false} InOrderFrom(day: int, earlier: int, reqs: seq<Request>)
    requires InOrder(day, reqs) && earlier <= day
    ensures InOrder(earlier, reqs)
    decreases |reqs|
  {
    if reqs != [] && reqs[0].userId == 0 { InOrderFrom(day, earlier, reqs[1..]); }
  }

  lemma EmptyRefines(day: int)
    ensures Refines(Unused(), Day(day, map[]))
  {
  }

  // ------------------------------------------------------------ what the map adds up

  function Plus(a: Usage, b: Usage): Usage {
    Usage(a.jobs + b.jobs, a.bytes + b.bytes)
  }

  /** What a request adds to a user's use of a day. */
  function Amount(d: Day, r: Request, userId: nat, day: int): Usage {
    if r.userId == userId && r.today == day && TrackIdeal(d, r).1 == Admitted
    then Usage(r.files, r.bytes) else Usage(0, 0)
  }

  /** The sum of what a user's admitted requests of one day asked for. */
  function AdmittedSum(d: Day, reqs: seq<Request>, userId: nat, day: int): Usage
    decreases |reqs|
  {
    if reqs == [] then Usage(0, 0)
    else Plus(Amount(d, reqs[0], userId, day), AdmittedSum(TrackIdeal(d, reqs[0]).0, reqs[1..], userId, day))
  }

  lemma {:induction false} DaysGoForward(d: Day, reqs: seq<Request>)
    requires InOrder(d.today, reqs)
    ensures d.today <= Days(d, reqs).today
    decreases |reqs|
  {
    hide TrackIdeal;
    if reqs != [] {
      InOrderNext(d, reqs);
      DaysGoForward(TrackIdeal(d, reqs[0]).0, reqs[1..]);
    }
  }

  lemma ChargeAdds(u: Usage, r: Request)
    ensures var c := ChargeIdeal(u, r); c.0 == Plus(u, if c.1 == Admitted then Usage(r.files, r.bytes) else Usage(0, 0))
    ensures ChargeIdeal(u, r).1 != Busy
  {
  }

  lemma OneRequestAdds(d: Day, r: Request, userId: nat, day: int)
    requires userId != 0 && !Late(d.today, r) && d.today <= day && TrackIdeal(d, r).0.today <= day
    ensures Used(UseOn(TrackIdeal(d, r).0, day), userId) ==
            Plus(Used(UseOn(d, day), userId), Amount(d, r, userId, day))
  {
    hide ChargeIdeal, Plus;
    PlusAssociates(Used(UseOn(d, day), userId), Usage(0, 0), Usage(0, 0));
    ChargeAdds(Used(UseOn(d, r.today), r.userId), r);
  }

  lemma PlusAssociates(a: Usage, b: Usage, c: Usage)
    ensures Plus(Plus(a, b), c) == Plus(a, Plus(b, c)) && Plus(a, Usage(0, 0)) == a
  {
  }

  /** On the latest day, or a later one, each user has used the sum of what was admitted for that day. */
  lemma {:induction false} SumsAre(d: Day, reqs: seq<Request>, userId: nat, day: int)
    requires InOrder(d.today, reqs) && userId != 0 && Days(d, reqs).today <= day
    ensures Used(UseOn(Days(d, reqs), day), userId) ==
            Plus(Used(UseOn(d, day), userId), AdmittedSum(d, reqs, userId, day))
    decreases |reqs|
  {
    hide TrackIdeal, UseOn, Plus, Used, Amount;
    DaysGoForward(d, reqs);
    if reqs == [] {
      PlusAssociates(Used(UseOn(d, day), userId), Usage(0, 0), Usage(0, 0));
    } else {
      var d1 := TrackIdeal(d, reqs[0]).0;
      InOrderNext(d, reqs);
      DaysGoForward(d1, reqs[1..]);
      OneRequestAdds(d, reqs[0], userId, day);
      SumsAre(d1, reqs[1..], userId, day);
      PlusAssociates(Used(UseOn(d, day), userId), Amount(d, reqs[0], userId, day),
                     AdmittedSum(d1, reqs[1..], userId, day));
    }
  }

  lemma SameDay(d: Day)
    ensures UseOn(d, d.today) == d.use
  {
  }

  /** What the requests of a user and day that got the verdict Admitted asked for. */
  function AdmittedBy(reqs: seq<Request>, verdicts: seq<Verdict>, userId: nat, day: int): Usage
    requires |verdicts| == |reqs|
  {
    if reqs == [] then Usage(0, 0)
    else
      var r := reqs[0];
      var counts := r.userId == userId && r.today == day && verdicts[0] == Admitted;
      Plus(if counts then Usage(r.files, r.bytes) else Usage(0, 0), AdmittedBy(reqs[1..], verdicts[1..], userId, day))
  }

  lemma {:induction false} SumsOfVerdicts(d: Day, reqs: seq<Request>, userId: nat, day: int)
    ensures AdmittedSum(d, reqs, userId, day) == AdmittedBy(reqs, IdealVerdicts(d, reqs), userId, day)
    decreases |reqs|
  {
    hide TrackIdeal, Plus;
    if reqs != [] {
      var d1 := TrackIdeal(d, reqs[0]).0;
      SumsOfVerdicts(d1, reqs[1..], userId, day);
      assert IdealVerdicts(d, reqs)[1..] == IdealVerdicts(d1, reqs[1..]);
    }
  }

  lemma {:induction false} LastInOrder(d: Day, reqs: seq<Request>, r: Request)
    requires InOrder(d.today, reqs + [r])
    ensures InOrder(d.today, reqs) && !Late(Days(d, reqs).today, r)
    decreases |reqs|
  {
    hide TrackIdeal, Late;
    if reqs == [] {
      assert reqs + [r] == [r];
    } else {
      var all := reqs + [r];
      assert all[1..] == reqs[1..] + [r];
      InOrderNext(d, all);
      LastInOrder(TrackIdeal(d, reqs[0]).0, reqs[1..], r);
      OrderOfFirst(d, reqs, r);
    }
  }

  lemma {:induction false} OrderOfFirst(d: Day, reqs: seq<Request>, r: Request)
    requires InOrder(d.today, reqs + [r])
    ensures InOrder(d.today, reqs)
    decreases |reqs|
  {
    if reqs != [] {
      assert (reqs + [r])[1..] == reqs[1..] + [r];
      var day := if reqs[0].userId == 0 then d.today else reqs[0].today;
      OrderOfFirst(Day(day, map[]), reqs[1..], r);
    }
  }

  /** As long as the days do not go back, a tracked request that finds a slot is refused exactly when, with what the
      user's admitted requests of the day have asked for, it would pass 500 jobs or, failing that, 2 GiB. */
  lemma VerdictExactlyWhen(reqs: seq<Request>, r: Request)
    requires AllFit(reqs) && Fits(r) && r.userId != 0 && InOrder(FirstDay(reqs + [r]), reqs + [r])
    ensures var verdict := Track(Tables(Unused(), reqs), r).1;
      var used := AdmittedBy(reqs, Verdicts(Unused(), reqs), r.userId, r.today);
      verdict == Busy ||
      verdict == if used.jobs + r.files > 500 then JobLimit
                 else if used.bytes + r.bytes > 2 * 1024 * 1024 * 1024 then ByteLimit else Admitted
  {
    hide Tables, Verdicts, IdealVerdicts, Days, AdmittedSum, AdmittedBy, Track, TrackIdeal, Refines, InOrder;
    var d0 := Day(FirstDay(reqs + [r]), map[]);
    EmptyRefines(d0.today);
    LastInOrder(d0, reqs, r);
    HistoryRefines(Unused(), d0, reqs);
    var d := Days(d0, reqs);
    TrackInOrder(Tables(Unused(), reqs), d, r);
    SumsAre(d0, reqs, r.userId, r.today);
    SumsOfVerdicts(d0, reqs, r.userId, r.today);
    IdealVerdict(d, r);
  }

  // ------------------------------------------------------------ when the day goes back

  /** A request for an earlier day leaves the latest day's map in the table if and only if nobody has a slot on the
      latest day yet: otherwise it takes the first one. */
  lemma LateRequest(t: Table, d: Day, r: Request)
    requires Refines(t, d) && Late(d.today, r)
    ensures Refines(Track(t, r).0, d) <==> d.use == map[]
  {
    var slot := SlotFor(t, r.userId, r.today, 0);
    if |d.use| > 0 {
      assert Holds(t[0], d);
      assert slot == 0;
      assert !Holds(Track(t, r).0[0], d);
    } else {
      hide SlotFor, Charge;
      if slot < |t| { ChargeKeepsDay(t, slot, r); }
    }
  }

  lemma ChargeKeepsDay(t: Table, slot: nat, r: Request)
    requires slot < |t|
    ensures Charge(Claim(t[slot], r.userId, r.today), r).0.day == r.today
  {
  }

  /** The map that the table should hold after a request: a request for an earlier day is not its concern. */
  function Latest(d: Day, r: Request): Day {
    if Late(d.today, r) then d else TrackIdeal(d, r).0
  }

  /** One request: the table holds the latest day's map afterwards, if and only if the request is not late or nobody
      has a slot on that day yet; and one that is not late gets the map's verdict. */
  lemma TrackRefines(t: Table, d: Day, r: Request)
    requires Refines(t, d) && Fits(r)
    ensures Refines(Track(t, r).0, Latest(d, r)) <==> !Late(d.today, r) || d.use == map[]
    ensures !Late(d.today, r) ==> Track(t, r).1 == TrackIdeal(d, r).1
  {
    hide Refines, Track, TrackIdeal;
    if Late(d.today, r) { LateRequest(t, d, r); } else { TrackInOrder(t, d, r); }
  }

  /** After every request the table holds the latest day's map, and requests for it get the map's verdicts. */
  ghost predicate AgreesThroughout(t: Table, d: Day, reqs: seq<Request>)
    decreases |reqs|
  {
    && Refines(t, d)
    && (reqs == [] ||
        ((Late(d.today, reqs[0]) || Track(t, reqs[0]).1 == TrackIdeal(d, reqs[0]).1) &&
         AgreesThroughout(Track(t, reqs[0]).0, Latest(d, reqs[0]), reqs[1..])))
  }

  lemma SomeoneServed(d: Day, r: Request)
    requires !Late(d.today, r) && (d.use != map[] || r.userId != 0)
    ensures TrackIdeal(d, r).0.use != map[]
    ensures if r.userId == 0 then TrackIdeal(d, r).0 == d else TrackIdeal(d, r).0.today == r.today
  {
    hide ChargeIdeal;
    if r.userId != 0 && TrackIdeal(d, r).0 != d {
      assert r.userId in TrackIdeal(d, r).0.use;
    }
  }

  lemma {:induction false} AgreesOnceServed(t: Table, d: Day, reqs: seq<Request>)
    requires Refines(t, d) && AllFit(reqs) && d.use != map[]
    ensures AgreesThroughout(t, d, reqs) <==> InOrder(d.today, reqs)
    decreases |reqs|
  {
    hide Refines, Track, TrackIdeal;
    if reqs != [] {
      var r := reqs[0];
      if Late(d.today, r) {
        LateRequest(t, d, r);
      } else {
        TrackInOrder(t, d, r);
        SomeoneServed(d, r);
        AgreesOnceServed(Track(t, r).0, TrackIdeal(d, r).0, reqs[1..]);
      }
    }
  }

  /** The day of the first request that is tracked. */
  function FirstDay(reqs: seq<Request>): int {
    if reqs == [] then 0 else if reqs[0].userId != 0 then reqs[0].today else FirstDay(reqs[1..])
  }

  lemma {:induction false} AgreesFromFirstDay(t: Table, d: Day, reqs: seq<Request>)
    requires Refines(t, d) && AllFit(reqs) && d == Day(FirstDay(reqs), map[])
    ensures AgreesThroughout(t, d, reqs) <==> InOrder(d.today, reqs)
    decreases |reqs|
  {
    hide Refines, Track, TrackIdeal;
    if reqs != [] {
      var r := reqs[0];
      TrackInOrder(t, d, r);
      DayMoves(d, r);
      if r.userId == 0 {
        AgreesFromFirstDay(Track(t, r).0, d, reqs[1..]);
      } else {
        SomeoneServed(d, r);
        AgreesOnceServed(Track(t, r).0, TrackIdeal(d, r).0, reqs[1..]);
      }
    }
  }

  /** What a history in which the days do not go back leaves: the verdicts were those of the ideal map, the latest
      day's entries are a prefix of the table with distinct users, none is over a limit, and each is the sum of what
      that user's requests of the day that were admitted asked for. */
  ghost predicate Accounted(reqs: seq<Request>) {
    var d0 := Day(FirstDay(reqs), map[]);
    var t, d := Tables(Unused(), reqs), Days(d0, reqs);
    && Verdicts(Unused(), reqs) == IdealVerdicts(d0, reqs)
    && |t| == SLOTS && |d.use| <= SLOTS && DistinctUsers(t, |d.use|)
    && forall i :: 0 <= i < SLOTS ==>
         if i < |d.use| then
           && t[i].userId != 0 && t[i].day == d.today && t[i].jobs <= MAX_JOBS && t[i].bytes <= MAX_BYTES
           && Usage(t[i].jobs, t[i].bytes) == AdmittedSum(d0, reqs, t[i].userId, d.today)
         else Stale(t[i], d.today)
  }

  lemma InOrderIsAccounted(reqs: seq<Request>)
    requires AllFit(reqs) && InOrder(FirstDay(reqs), reqs)
    ensures Accounted(reqs)
  {
    var d0 := Day(FirstDay(reqs), map[]);
    EmptyRefines(FirstDay(reqs));
    HistoryRefines(Unused(), d0, reqs);
    var t, d := Tables(Unused(), reqs), Days(d0, reqs);
    hide AdmittedSum, Days, Tables, Verdicts, IdealVerdicts;
    forall i | 0 <= i < |d.use|
      ensures Holds(t[i], d) && Usage(t[i].jobs, t[i].bytes) == AdmittedSum(d0, reqs, t[i].userId, d.today)
    {
      assert Holds(t[i], d);
      SameDay(d);
      SumsAre(d0, reqs, t[i].userId, d.today);
    }
  }

  /** Over every history from an unused table: the table agrees with the per-day map throughout if and only if the
      days of the tracked requests do not go back, and what was said above then holds. */
  lemma QuotaOverAnyHistory(reqs: seq<Request>)
    requires AllFit(reqs)
    ensures AgreesThroughout(Unused(), Day(FirstDay(reqs), map[]), reqs) <==> InOrder(FirstDay(reqs), reqs)
    ensures InOrder(FirstDay(reqs), reqs) ==> Accounted(reqs)
  {
    hide Accounted, AgreesThroughout;
    EmptyRefines(FirstDay(reqs));
    AgreesFromFirstDay(Unused(), Day(FirstDay(reqs), map[]), reqs);
    if InOrder(FirstDay(reqs), reqs) { InOrderIsAccounted(reqs); }
  }

  lemma TakesFirstSlot(t: Table, r: Request)
    requires |t| == SLOTS && r.userId != 0 && Stale(t[0], r.today) && !Matches(t[0], r.userId, r.today)
    requires r.files <= MAX_JOBS && r.bytes <= MAX_BYTES
    ensures Track(t, r) == (t[0 := Entry(r.userId, r.today, r.files, r.bytes)], Admitted)
  {
  }

  /** Around midnight: a request that still counts for day 4 comes after one for day 5, and a user is then admitted
      for 800 jobs on day 5. */
  lemma OverLimitWhenDayGoesBack()
    ensures var reqs := [Request(1, 400, 0, 5), Request(2, 1, 0, 4), Request(1, 400, 0, 5)];
      AllFit(reqs) && Verdicts(Unused(), reqs) == [Admitted, Admitted, Admitted]
  {
    var a, b := Request(1, 400, 0, 5), Request(2, 1, 0, 4);
    var reqs := [a, b, a];
    var t0 := Unused();
    TakesFirstSlot(t0, a);
    var t1 := Track(t0, a).0;
    TakesFirstSlot(t1, b);
    var t2 := Track(t1, b).0;
    TakesFirstSlot(t2, a);
    hide Track;
    assert reqs[1..] == [b, a] && reqs[1..][1..] == [a] && reqs[1..][1..][1..] == [];
    assert Verdicts(t2, [a]) == [Admitted] + [] && Verdicts(t1, [b, a]) == [Admitted] + Verdicts(t2, [a]);
  }
}
