/** Every interleaving of the launcher's suspended calls: update_progress waiting for the
    oracle, set_buy_or_sell waiting for the router, create_fomo waiting for its canister.
    Between awaits a call runs without interruption, so each event is one such segment. */
module Board {
  import opened Checked
  import opened ProgressSpec

  /** A suspended set_buy_or_sell: the record it will write back, and its second read. */
  datatype Buy = Buy(k: nat, v: Project, item: Option<Project>)

  datatype State = State(
    projects: map<nat, Project>, godIdx: nat, count: nat,
    creating: set<nat>,               // indices handed out to suspended create_fomo calls
    scans: map<nat, seq<Project>>,    // lists held by suspended update_progress calls
    buys: map<nat, Buy>,              // suspended set_buy_or_sell calls
    locked: multiset<nat>)            // every pool queued for DAO transfer and locking so far

  datatype Event =
    | Allocate
    | CreateCommit(idx: nat)
    | Reply(idx: nat, now: nat)
    | ScanStart(id: nat)
    | ScanFinish(id: nat, caps: map<nat, nat>, now: nat)
    | BuyRead(id: nat, k: nat)
    | BuyItem(id: nat)
    | BuyCommit(id: nat, cap: nat, now: nat)

  const INITIAL := State(map[], 1, 0, {}, map[], map[], multiset{})

  function NewProject(idx: nat): Project {
    Project(idx, 0, None, 0, None, 0, 0, 0, 0)
  }

  /** The projects with index at most n, in index order. */
  function Snapshot(projects: map<nat, Project>, n: nat): seq<Project> {
    if n == 0 then []
    else Snapshot(projects, n - 1) + if n in projects then [projects[n]] else []
  }

  /** Whether a segment can run; a call that panics leaves the state alone. */
  predicate Enabled(s: State, e: Event) {
    match e
    case Allocate => true
    case CreateCommit(idx) => idx in s.creating
    case Reply(idx, _) => idx in s.projects
    case ScanStart(id) => id !in s.scans
    case ScanFinish(id, _, _) => id in s.scans
    case BuyRead(id, k) => id !in s.buys && k in s.projects
    case BuyItem(id) => id in s.buys && s.buys[id].item.None? && s.buys[id].k in s.projects
    case BuyCommit(id, _, _) => id in s.buys && s.buys[id].item.Some?
  }

  function Next(s: State, e: Event): State {
    if !Enabled(s, e) then s
    else
      match e
      case Allocate => s.(count := s.count + 1, creating := s.creating + {s.count + 1})
      case CreateCommit(idx) => s.(projects := s.projects[idx := NewProject(idx)], creating := s.creating - {idx})
      case Reply(idx, now) =>
        var p := s.projects[idx];
        s.(projects := s.projects[idx := p.(replyCount := p.replyCount + 1, recentlyReplyTime := now)])
      case ScanStart(id) => s.(scans := s.scans[id := Snapshot(s.projects, s.count)])
      case ScanFinish(id, caps, now) => Finish(s, s.scans[id], caps, now).(scans := s.scans - {id})
      case BuyRead(id, k) => s.(buys := s.buys[id := Buy(k, s.projects[k], None)])
      case BuyItem(id) =>
        var b := s.buys[id];
        s.(buys := s.buys[id := b.(item := Some(s.projects[b.k]))])
      case BuyCommit(id, cap, now) =>
        var b := s.buys[id];
        var maxCap := GodCap(s.projects, s.godIdx);
        s.(projects := s.projects[b.k := TradedRecord(b.v, cap, maxCap, now)],
           godIdx := if TakesOver(b.v, b.item.value, cap, maxCap) then b.k else s.godIdx,
           buys := s.buys - {id})
  }

  /** update_progress after its last oracle call: elect, write back, queue. */
  function Finish(s: State, list: seq<Project>, caps: map<nat, nat>, now: nat): State {
    var e, entries := Elect(list, caps), Entries(list, caps);
    s.(projects := WrittenBack(s.projects, entries, e.cap, now),
       godIdx := e.idx,
       locked := s.locked + multiset(Completed(s.projects, entries)))
  }

  function Run(s: State, events: seq<Event>): State
    decreases |events|
  {
    if events == [] then s else Run(Next(s, events[0]), events[1..])
  }

  // ----- invariants of every interleaving

  ghost predicate WellFormed(s: State) {
    && (forall k :: k in s.projects ==> 1 <= k <= s.count && s.projects[k].fomoIdx == k && Bounded(s.projects[k]))
    && (forall k :: k in s.creating ==> 1 <= k <= s.count && k !in s.projects)
    && (forall id :: id in s.buys ==>
          s.buys[id].k in s.projects && s.buys[id].v.fomoIdx == s.buys[id].k && Bounded(s.buys[id].v))
    && (forall id :: id in s.scans ==> Ascending(s.scans[id]) && Known(s.scans[id], s.projects))
  }

  /** Projects are never removed, so whatever a scan listed is still there when it finishes. */
  ghost predicate Known(list: seq<Project>, projects: map<nat, Project>) {
    forall n :: 0 <= n < |list| ==> list[n].fomoIdx in projects
  }

  lemma {:induction false} SnapshotAscending(projects: map<nat, Project>, n: nat)
    requires forall k :: k in projects ==> projects[k].fomoIdx == k
    ensures Ascending(Snapshot(projects, n))
    ensures forall p :: p in Snapshot(projects, n) ==> p.fomoIdx <= n
  {
    if n > 0 {
      SnapshotAscending(projects, n - 1);
      var pre := Snapshot(projects, n - 1);
      assert forall m :: 0 <= m < |pre| ==> pre[m] in pre;
    }
  }

  lemma {:induction false} SnapshotKnown(projects: map<nat, Project>, n: nat)
    requires forall k :: k in projects ==> projects[k].fomoIdx == k
    ensures Known(Snapshot(projects, n), projects)
  {
    if n > 0 {
      SnapshotKnown(projects, n - 1);
    }
  }

  lemma {:induction false} SnapshotComplete(projects: map<nat, Project>, n: nat, k: nat)
    requires k in projects && 1 <= k <= n
    ensures exists m :: 0 <= m < |Snapshot(projects, n)| && Snapshot(projects, n)[m] == projects[k]
  {
    var pre := Snapshot(projects, n - 1);
    if k == n {
      assert Snapshot(projects, n)[|pre|] == projects[k];
    } else {
      SnapshotComplete(projects, n - 1, k);
      var m :| 0 <= m < |pre| && pre[m] == projects[k];
      assert Snapshot(projects, n)[m] == projects[k];
    }
  }

  lemma {:induction false} EntriesCapped(list: seq<Project>, caps: map<nat, nat>, idx: nat)
    requires idx in Entries(list, caps)
    ensures Entries(list, caps)[idx].poolProgress <= FULL
  {
    EntryHasProject(list, caps, idx);
  }

  lemma FinishBounded(s: State, list: seq<Project>, caps: map<nat, nat>, now: nat, k: nat)
    requires k in s.projects && Bounded(s.projects[k]) && s.projects[k].fomoIdx == k
    ensures var p := Finish(s, list, caps, now).projects[k]; Bounded(p) && p.fomoIdx == k
  {
    var entries := Entries(list, caps);
    if k in entries {
      EntriesCapped(list, caps, k);
      var p := s.projects[k].(poolProgress := entries[k].poolProgress, marketCap := entries[k].marketCap);
      GodStepBounded(p, entries[k].marketCap, Elect(list, caps).cap, now);
    }
  }

  /** Over every interleaving: progress stays within bounds, a full god-of-wells progress
      carries its time, and an index handed out by count() is never overwritten. */
  lemma NextWellFormed(s: State, e: Event)
    requires WellFormed(s)
    ensures WellFormed(Next(s, e))
    ensures e.CreateCommit? && Enabled(s, e) ==> e.idx !in s.projects
  {
    if Enabled(s, e) {
      match e
      case ScanStart(id) =>
        SnapshotAscending(s.projects, s.count);
        SnapshotKnown(s.projects, s.count);
      case ScanFinish(id, caps, now) => FinishWellFormed(s, id, caps, now);
      case BuyCommit(id, cap, now) => CommitWellFormed(s, id, cap, now);
      case _ =>
    }
  }

  lemma FinishWellFormed(s: State, id: nat, caps: map<nat, nat>, now: nat)
    requires WellFormed(s) && id in s.scans
    ensures WellFormed(Next(s, ScanFinish(id, caps, now)))
  {
    forall k | k in s.projects
      ensures Bounded(Finish(s, s.scans[id], caps, now).projects[k])
      ensures Finish(s, s.scans[id], caps, now).projects[k].fomoIdx == k
    {
      FinishBounded(s, s.scans[id], caps, now, k);
    }
  }

  lemma CommitWellFormed(s: State, id: nat, cap: nat, now: nat)
    requires WellFormed(s) && Enabled(s, BuyCommit(id, cap, now))
    ensures WellFormed(Next(s, BuyCommit(id, cap, now)))
  {
    GodStepBounded(s.buys[id].v, cap, GodCap(s.projects, s.godIdx), now);
  }

  lemma {:induction false} RunWellFormed(s: State, events: seq<Event>)
    requires WellFormed(s)
    ensures WellFormed(Run(s, events))
    decreases |events|
  {
    if events != [] {
      NextWellFormed(s, events[0]);
      RunWellFormed(Next(s, events[0]), events[1..]);
    }
  }

  /** After a scan the god of wells is the lowest-index eligible project of largest positive
      cap, with full progress and a time; without one the index is 0. */
  lemma FinishCrowns(s: State, id: nat, caps: map<nat, nat>, now: nat)
    requires WellFormed(s) && id in s.scans
    ensures var list, t := s.scans[id], Next(s, ScanFinish(id, caps, now));
      || (t.godIdx == 0 && forall m :: 0 <= m < |list| && Eligible(list[m], CapOf(caps, list[m])) ==>
                             CapOf(caps, list[m]) == 0)
      || (exists n :: Wins(list, caps, n) && t.godIdx == list[n].fomoIdx
                      && t.godIdx in t.projects
                      && t.projects[t.godIdx].marketCap == CapOf(caps, list[n])
                      && t.projects[t.godIdx].godProgress == FULL
                      && t.projects[t.godIdx].godTime.Some?)
  {
    var list := s.scans[id];
    ElectionIsArgmax(list, caps);
    var e := Elect(list, caps);
    if e.cap > 0 {
      var n :| Wins(list, caps, n) && e == Election(CapOf(caps, list[n]), list[n].fomoIdx);
      WinnerCrowned(s, list, caps, now, n);
    }
  }

  lemma WinnerCrowned(s: State, list: seq<Project>, caps: map<nat, nat>, now: nat, n: int)
    requires WellFormed(s) && Ascending(list) && Wins(list, caps, n)
    requires Elect(list, caps) == Election(CapOf(caps, list[n]), list[n].fomoIdx)
    requires list[n].fomoIdx in s.projects
    ensures var p := Finish(s, list, caps, now).projects[list[n].fomoIdx];
      p.marketCap == CapOf(caps, list[n]) && p.godProgress == FULL && p.godTime.Some?
  {
    var cap := CapOf(caps, list[n]);
    EntriesExact(list, caps);
    var p := s.projects[list[n].fomoIdx].(poolProgress := EntryOf(caps, list[n]).poolProgress, marketCap := cap);
    GodStepBounded(p, cap, cap, now);
  }

  // ----- locking at most once

  /** No pool was queued twice, and every queued pool is marked done. */
  ghost predicate QueuedDone(s: State) {
    && (forall k :: s.locked[k] <= 1)
    && (forall k :: k in s.locked ==> k in s.projects && s.projects[k].doneTime.Some?)
  }

  /** The write-back of set_buy_or_sell is about to put an undone record over a queued pool's. */
  predicate Erases(s: State, e: Event) {
    e.BuyCommit? && Enabled(s, e) && s.buys[e.id].v.doneTime == None && s.buys[e.id].k in s.locked
  }

  lemma FinishLocks(s: State, list: seq<Project>, caps: map<nat, nat>, now: nat, k: nat)
    ensures var t, c := Finish(s, list, caps, now), Completed(s.projects, Entries(list, caps));
      && t.locked[k] == s.locked[k] + (if k in c then 1 else 0)
      && (k in s.projects ==> k in t.projects)
      && (k in s.projects && s.projects[k].doneTime.Some? ==>
            t.projects[k].doneTime == s.projects[k].doneTime && k !in c)
      && (k in c ==> t.projects[k].doneTime == Some(now) && s.projects[k].doneTime == None)
  {
  }

  /** Queueing and marking done happen in one segment, so a scan keeps both. */
  lemma ScanQueuedDone(s: State, e: Event)
    requires QueuedDone(s) && e.ScanFinish? && e.id in s.scans
    ensures var t, c := Next(s, e), Completed(s.projects, Entries(s.scans[e.id], e.caps));
      QueuedDone(t) && t.buys == s.buys && forall k :: k in t.locked <==> k in s.locked || k in c
  {
    var t, c := Next(s, e), Completed(s.projects, Entries(s.scans[e.id], e.caps));
    forall k
      ensures t.locked[k] <= 1
      ensures k in t.locked <==> k in s.locked || k in c
      ensures k in t.locked ==> k in t.projects && t.projects[k].doneTime.Some?
    {
      FinishLocks(s, s.scans[e.id], e.caps, e.now, k);
    }
  }

  lemma CommitQueuedDoneIff(s: State, e: Event)
    requires QueuedDone(s) && e.BuyCommit? && Enabled(s, e)
    ensures Next(s, e).locked == s.locked && (QueuedDone(Next(s, e)) <==> !Erases(s, e))
  {
    var b, t := s.buys[e.id], Next(s, e);
    assert t.projects[b.k].doneTime == b.v.doneTime;
  }

  lemma OtherQueuedDone(s: State, e: Event)
    requires WellFormed(s) && QueuedDone(s) && Enabled(s, e) && !e.ScanFinish? && !e.BuyCommit?
    ensures Next(s, e).locked == s.locked && QueuedDone(Next(s, e))
  {
  }

  /** One segment keeps the queued pools done exactly when it does not erase. */
  lemma NextQueuedDoneIff(s: State, e: Event)
    requires WellFormed(s) && QueuedDone(s)
    ensures QueuedDone(Next(s, e)) <==> !Erases(s, e)
  {
    if Enabled(s, e) {
      if e.ScanFinish? {
        ScanQueuedDone(s, e);
      } else if e.BuyCommit? {
        CommitQueuedDoneIff(s, e);
      } else {
        OtherQueuedDone(s, e);
      }
    }
  }

  predicate ErasureFree(s: State, events: seq<Event>)
    decreases |events|
  {
    events == [] || (!Erases(s, events[0]) && ErasureFree(Next(s, events[0]), events[1..]))
  }

  /** Each pool is queued at most once over every interleaving in which no write-back erases. */
  lemma {:induction false} ErasureFreeLocksOnce(s: State, events: seq<Event>, k: nat)
    requires WellFormed(s) && QueuedDone(s) && ErasureFree(s, events)
    ensures QueuedDone(Run(s, events)) && Run(s, events).locked[k] <= 1
    decreases |events|
  {
    if events != [] {
      NextWellFormed(s, events[0]);
      NextQueuedDoneIff(s, events[0]);
      ErasureFreeLocksOnce(Next(s, events[0]), events[1..], k);
    }
  }

  /** The market cap at which a project's pool progress is exactly full. */
  const FULL_CAP: nat := 5_000_000_000_000_000_000_000

  /** A pool completes exactly at a market cap of 5000: both roundings are exact there. */
  lemma FullAtFiveThousand(caps: map<nat, nat>, p: Project)
    ensures Completes(p, EntryOf(caps, p)) <==> CapOf(caps, p) >= FULL_CAP && p.doneTime == None
  {
  }

  /** The suspended call writes its old record back, and the next scan completes the pool again. */
  function SecondLock(id: nat, scan: nat, k: nat): seq<Event> {
    [BuyItem(id), BuyCommit(id, FULL_CAP, 0), ScanStart(scan), ScanFinish(scan, map[k := FULL_CAP], 0)]
  }

  lemma RunFour(s: State, a: Event, b: Event, c: Event, d: Event)
    ensures Run(s, [a, b, c, d]) == Next(Next(Next(Next(s, a), b), c), d)
  {
    assert [a, b, c, d][1..] == [b, c, d] && [b, c, d][1..] == [c, d] && [c, d][1..] == [d];
    var u := Next(Next(Next(s, a), b), c);
    assert Run(u, [d]) == Next(u, d);
    assert Run(Next(Next(s, a), b), [c, d]) == Run(u, [d]);
    assert Run(Next(s, a), [b, c, d]) == Run(Next(Next(s, a), b), [c, d]);
  }

  /** A scan that finds a project not done and at full cap queues it. */
  lemma FullScanLocks(s: State, scan: nat, k: nat)
    requires WellFormed(s) && scan !in s.scans && k in s.projects && s.projects[k].doneTime == None
    ensures var t := Next(Next(s, ScanStart(scan)), ScanFinish(scan, map[k := FULL_CAP], 0));
      t.locked[k] == s.locked[k] + 1
  {
    var list, u := Snapshot(s.projects, s.count), Next(s, ScanStart(scan));
    assert u == s.(scans := s.scans[scan := list]);
    FullEntry(s, k);
    FinishLocks(u, list, map[k := FULL_CAP], 0, k);
  }

  lemma FullEntry(s: State, k: nat)
    requires WellFormed(s) && k in s.projects && s.projects[k].doneTime == None
    ensures k in Completed(s.projects, Entries(Snapshot(s.projects, s.count), map[k := FULL_CAP]))
  {
    var list, caps := Snapshot(s.projects, s.count), map[k := FULL_CAP];
    SnapshotAscending(s.projects, s.count);
    SnapshotComplete(s.projects, s.count, k);
    EntriesExact(list, caps);
    var m :| 0 <= m < |list| && list[m] == s.projects[k];
    assert EntryOf(caps, list[m]).poolProgress == FULL;
  }

  /** Any scan that starts now and finds project k at full cap queues its pool a second time. */
  ghost predicate LocksAgain(t: State, k: nat) {
    forall scan :: scan !in t.scans ==>
      Next(Next(t, ScanStart(scan)), ScanFinish(scan, map[k := FULL_CAP], 0)).locked[k] == 2
  }

  lemma {:induction false} AboveAll(used: set<nat>) returns (id: nat)
    ensures forall n :: n in used ==> n < id
  {
    if used == {} {
      id := 0;
    } else {
      var n :| n in used;
      var rest := AboveAll(used - {n});
      id := if n < rest then rest else n + 1;
      assert forall m :: m in used ==> m == n || m in used - {n};
    }
  }

  /** Erasing is exactly what lets the very next scan queue a pool twice. */
  lemma ErasesIffLocksAgain(s: State, e: Event)
    requires WellFormed(s) && QueuedDone(s)
    ensures Erases(s, e) <==> exists k :: LocksAgain(Next(s, e), k)
  {
    var t := Next(s, e);
    NextWellFormed(s, e);
    if Erases(s, e) {
      var k := s.buys[e.id].k;
      CommitQueuedDoneIff(s, e);
      forall scan | scan !in t.scans
        ensures Next(Next(t, ScanStart(scan)), ScanFinish(scan, map[k := FULL_CAP], 0)).locked[k] == 2
      {
        FullScanLocks(t, scan, k);
      }
      assert LocksAgain(t, k);
    } else {
      NextQueuedDoneIff(s, e);
      forall k
        ensures !LocksAgain(t, k)
      {
        NoSecondLock(t, k);
      }
    }
  }

  lemma NoSecondLock(t: State, k: nat)
    requires WellFormed(t) && QueuedDone(t)
    ensures !LocksAgain(t, k)
  {
    var scan := AboveAll(t.scans.Keys);
    var u, e := Next(t, ScanStart(scan)), ScanFinish(scan, map[k := FULL_CAP], 0);
    NextQueuedDoneIff(t, ScanStart(scan));
    NextWellFormed(t, ScanStart(scan));
    NextQueuedDoneIff(u, e);
    assert scan !in t.scans && Next(u, e).locked[k] <= 1;
  }

  /** A stale record written back lets the pool be queued once more. */
  lemma StaleRecordLocksAgain(t: State, id: nat, scan: nat, k: nat)
    requires WellFormed(t) && id in t.buys && t.buys[id].k == k && t.buys[id].v.doneTime == None
    requires scan !in t.scans
    ensures Run(t, SecondLock(id, scan, k)).locked[k] == t.locked[k] + 1
  {
    var u := Next(t, BuyItem(id));
    NextWellFormed(t, BuyItem(id));
    var w := Next(u, BuyCommit(id, FULL_CAP, 0));
    NextWellFormed(u, BuyCommit(id, FULL_CAP, 0));
    FullScanLocks(w, scan, k);
    RunFour(t, BuyItem(id), BuyCommit(id, FULL_CAP, 0), ScanStart(scan), ScanFinish(scan, map[k := FULL_CAP], 0));
  }

  // ----- what a scan can look out for

  /** Safe against what is already suspended: no waiting set_buy_or_sell could erase. */
  ghost predicate LockSafe(s: State) {
    QueuedDone(s) && forall id :: id in s.buys && s.buys[id].k in s.locked ==> s.buys[id].v.doneTime.Some?
  }

  /** The scan about to finish completes a pool while a set_buy_or_sell that read it as
      not done is still suspended. */
  ghost predicate Race(s: State, e: Event) {
    && e.ScanFinish? && e.id in s.scans
    && exists id :: Racing(s, e, id)
  }

  ghost predicate Racing(s: State, e: Event, id: nat)
    requires e.ScanFinish? && e.id in s.scans
  {
    && id in s.buys && s.buys[id].v.doneTime == None
    && s.buys[id].k in Completed(s.projects, Entries(s.scans[e.id], e.caps))
  }

  /** One segment leaves no waiting call able to erase exactly when it is not a race. */
  lemma NextLockSafeIff(s: State, e: Event)
    requires WellFormed(s) && LockSafe(s)
    ensures LockSafe(Next(s, e)) <==> !Race(s, e)
  {
    NextQueuedDoneIff(s, e);
    if Enabled(s, e) {
      if e.ScanFinish? {
        FinishLockSafeIff(s, e);
      } else if e.BuyCommit? {
        CommitQueuedDoneIff(s, e);
      } else {
        OtherQueuedDone(s, e);
      }
    }
  }

  lemma FinishLockSafeIff(s: State, e: Event)
    requires LockSafe(s) && e.ScanFinish? && e.id in s.scans
    ensures LockSafe(Next(s, e)) <==> !Race(s, e)
  {
    var t := Next(s, e);
    ScanQueuedDone(s, e);
    if Race(s, e) {
      var id :| Racing(s, e, id);
      assert s.buys[id].k in t.locked && id in t.buys;
    } else {
      forall id | id in t.buys && t.buys[id].k in t.locked
        ensures t.buys[id].v.doneTime.Some?
      {
        assert !Racing(s, e, id);
      }
    }
  }

  ghost predicate RaceFree(s: State, events: seq<Event>)
    decreases |events|
  {
    events == [] || (!Race(s, events[0]) && RaceFree(Next(s, events[0]), events[1..]))
  }

  /** A run without a race never erases, and so queues each pool at most once ... */
  lemma {:induction false} RaceFreeIsErasureFree(s: State, events: seq<Event>)
    requires WellFormed(s) && LockSafe(s) && RaceFree(s, events)
    ensures ErasureFree(s, events) && LockSafe(Run(s, events))
    decreases |events|
  {
    if events != [] {
      NextWellFormed(s, events[0]);
      NextLockSafeIff(s, events[0]);
      RaceFreeIsErasureFree(Next(s, events[0]), events[1..]);
    }
  }

  /** ... and after a race some continuation erases and queues the pool a second time. */
  lemma RaceLocksTwice(s: State, e: Event) returns (id: nat, k: nat)
    requires WellFormed(s) && LockSafe(s) && Race(s, e)
    ensures forall scan :: scan !in s.scans ==> Run(Next(s, e), SecondLock(id, scan, k)).locked[k] == 2
  {
    id :| Racing(s, e, id);
    k := s.buys[id].k;
    var t := Next(s, e);
    NextWellFormed(s, e);
    FinishLocks(s, s.scans[e.id], e.caps, e.now, k);
    assert k !in s.locked;
    assert t.locked[k] == 1;
    forall scan | scan !in s.scans
      ensures Run(t, SecondLock(id, scan, k)).locked[k] == 2
    {
      StaleRecordLocksAgain(t, id, scan, k);
    }
  }

  lemma InitialSafe()
    ensures WellFormed(INITIAL) && LockSafe(INITIAL)
  {
  }

  lemma {:induction false} RunConcat(s: State, a: seq<Event>, b: seq<Event>)
    ensures Run(s, a + b) == Run(Run(s, a), b)
    decreases |a|
  {
    if a == [] {
      assert a + b == b;
    } else {
      assert (a + b)[0] == a[0] && (a + b)[1..] == a[1..] + b;
      RunConcat(Next(s, a[0]), a[1..], b);
    }
  }

  /** One project, one suspended scan and one suspended set_buy_or_sell. */
  function RaceState(): State {
    var p := NewProject(1);
    State(map[1 := p], 1, 1, {}, map[0 := [p]], map[0 := Buy(1, p, None)], multiset{})
  }

  lemma ReachRaceState()
    ensures Run(INITIAL, [Allocate, CreateCommit(1), BuyRead(0, 1), ScanStart(0)]) == RaceState()
  {
    RunFour(INITIAL, Allocate, CreateCommit(1), BuyRead(0, 1), ScanStart(0));
    var created := Next(Next(INITIAL, Allocate), CreateCommit(1));
    assert created == State(map[1 := NewProject(1)], 1, 1, {}, map[], map[], multiset{});
    assert Snapshot(created.projects, 0) == [];
    assert Snapshot(created.projects, 1) == [NewProject(1)];
  }

  /** A race is reachable ... */
  lemma RaceIsReachable()
    ensures WellFormed(RaceState()) && LockSafe(RaceState())
    ensures Race(RaceState(), ScanFinish(0, map[1 := FULL_CAP], 0))
  {
    var list, caps := [NewProject(1)], map[1 := FULL_CAP];
    EntriesExact(list, caps);
    assert list[0].fomoIdx in Entries(list, caps);
    assert EntryOf(caps, list[0]).poolProgress == FULL;
    assert Racing(RaceState(), ScanFinish(0, caps, 0), 0);
  }

  /** A race alone does no harm: if the racing call panics instead of writing back, the run is
      erasure-free and queues the pool once. */
  lemma RaceWithoutErasure()
    ensures var e := ScanFinish(0, map[1 := FULL_CAP], 0);
      && !RaceFree(RaceState(), [e]) && ErasureFree(RaceState(), [e])
      && Run(RaceState(), [e]).locked[1] == 1
  {
    var e := ScanFinish(0, map[1 := FULL_CAP], 0);
    RaceIsReachable();
    RaceScanLocks();
    assert [e][1..] == [];
    assert Run(Next(RaceState(), e), []) == Next(RaceState(), e);
  }

  lemma RaceScanLocks()
    ensures Next(RaceState(), ScanFinish(0, map[1 := FULL_CAP], 0)).locked[1] == 1
  {
    var list, caps := [NewProject(1)], map[1 := FULL_CAP];
    EntriesExact(list, caps);
    assert list[0].fomoIdx in Entries(list, caps) && EntryOf(caps, list[0]).poolProgress == FULL;
    FinishLocks(RaceState(), list, caps, 0, 1);
  }

  /** ... so some run queues a pool for locking twice. */
  lemma LockedTwiceIsReachable() returns (events: seq<Event>, k: nat)
    ensures Run(INITIAL, events).locked[k] == 2
  {
    ReachRaceState();
    RaceIsReachable();
    var e, id := ScanFinish(0, map[1 := FULL_CAP], 0), 0;
    id, k := RaceLocksTwice(RaceState(), e);
    var prefix := [Allocate, CreateCommit(1), BuyRead(0, 1), ScanStart(0)];
    RunConcat(INITIAL, prefix, [e] + SecondLock(id, 1, k));
    assert ([e] + SecondLock(id, 1, k))[1..] == SecondLock(id, 1, k);
    events := prefix + ([e] + SecondLock(id, 1, k));
  }
}
