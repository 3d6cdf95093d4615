/** Project progress on values: the election of the god of wells, the write-back of
    progress, and the record a buy or sell leaves behind. */
module ProgressSpec {
  import Arith
  import opened Checked

  /** The fields of FomoProject that these functions read or write. */
  datatype Project = Project(
    fomoIdx: nat, poolProgress: nat, doneTime: Option<nat>, godProgress: nat, godTime: Option<nat>,
    marketCap: nat, replyCount: nat, recentlyReplyTime: nat, recentlyBumpTime: nat)

  const FULL: nat := 10_000

  /** Progress towards a market cap of 5000, in ten-thousandths, before it is capped. */
  function RawProgress(cap: nat): nat {
    cap * FULL / 5000 / 1_000_000_000_000_000_000
  }

  function CapProgress(progress: nat): nat {
    if progress > FULL then FULL else progress
  }

  // ----- the election

  /** What the oracle reports for a project; errors and missing entries read as zero. */
  function CapOf(caps: map<nat, nat>, p: Project): nat {
    if p.fomoIdx in caps then caps[p.fomoIdx] else 0
  }

  predicate Eligible(p: Project, cap: nat) {
    || (RawProgress(cap) <= FULL && p.doneTime == None)
    || (RawProgress(cap) >= FULL && p.godTime == None)
  }

  datatype Election = Election(cap: nat, idx: nat)

  function Elect(list: seq<Project>, caps: map<nat, nat>): Election {
    if list == [] then Election(0, 0)
    else
      var n := |list| - 1;
      var e, cap := Elect(list[..n], caps), CapOf(caps, list[n]);
      if cap > e.cap && Eligible(list[n], cap) then Election(cap, list[n].fomoIdx) else e
  }

  datatype Entry = Entry(poolProgress: nat, marketCap: nat)

  function EntryOf(caps: map<nat, nat>, p: Project): Entry {
    Entry(CapProgress(RawProgress(CapOf(caps, p))), CapOf(caps, p))
  }

  function Entries(list: seq<Project>, caps: map<nat, nat>): map<nat, Entry> {
    if list == [] then map[]
    else
      var n := |list| - 1;
      Entries(list[..n], caps)[list[n].fomoIdx := EntryOf(caps, list[n])]
  }

  /** Projects in index order, as the stable map iterates them. */
  ghost predicate Ascending(list: seq<Project>) {
    forall m, n :: 0 <= m < n < |list| ==> list[m].fomoIdx < list[n].fomoIdx
  }

  /** The n-th project wins: the first of the eligible ones with the largest, positive cap. */
  ghost predicate Wins(list: seq<Project>, caps: map<nat, nat>, n: int) {
    && 0 <= n < |list| && Eligible(list[n], CapOf(caps, list[n])) && 0 < CapOf(caps, list[n])
    && forall m :: 0 <= m < |list| && Eligible(list[m], CapOf(caps, list[m])) ==>
         && CapOf(caps, list[m]) <= CapOf(caps, list[n])
         && (m < n ==> CapOf(caps, list[m]) < CapOf(caps, list[n]))
  }

  /** The election picks the winner's index and cap, and index 0 exactly when no
      eligible project has a positive cap. */
  lemma {:induction false} ElectionIsArgmax(list: seq<Project>, caps: map<nat, nat>)
    ensures var e := Elect(list, caps);
      if e.cap == 0
      then e.idx == 0
           && forall m :: 0 <= m < |list| && Eligible(list[m], CapOf(caps, list[m])) ==> CapOf(caps, list[m]) == 0
      else exists n :: Wins(list, caps, n) && e == Election(CapOf(caps, list[n]), list[n].fomoIdx)
  {
    if list != [] {
      var last := |list| - 1;
      var pre := list[..last];
      ElectionIsArgmax(pre, caps);
      var e, cap := Elect(pre, caps), CapOf(caps, list[last]);
      if cap > e.cap && Eligible(list[last], cap) {
        if e.cap > 0 {
          var n :| Wins(pre, caps, n) && e.cap == CapOf(caps, pre[n]);
        }
        LastWins(list, caps, e.cap);
      } else if e.cap > 0 {
        var n :| Wins(pre, caps, n) && e == Election(CapOf(caps, pre[n]), pre[n].fomoIdx);
        WinnerStays(list, caps, n);
      }
    }
  }

  lemma LastWins(list: seq<Project>, caps: map<nat, nat>, bar: nat)
    requires list != []
    requires var last := |list| - 1;
      && bar < CapOf(caps, list[last]) && Eligible(list[last], CapOf(caps, list[last]))
      && forall m :: 0 <= m < last && Eligible(list[..last][m], CapOf(caps, list[..last][m])) ==>
                       CapOf(caps, list[..last][m]) <= bar
    ensures Wins(list, caps, |list| - 1)
  {
    var last := |list| - 1;
    assert forall m :: 0 <= m < last ==> list[m] == list[..last][m];
  }

  lemma WinnerStays(list: seq<Project>, caps: map<nat, nat>, n: int)
    requires list != [] && Wins(list[..|list| - 1], caps, n)
    requires var last := |list| - 1;
      Eligible(list[last], CapOf(caps, list[last])) ==> CapOf(caps, list[last]) <= CapOf(caps, list[n])
    ensures Wins(list, caps, n) && list[n] == list[..|list| - 1][n]
  {
    var last := |list| - 1;
    assert forall m :: 0 <= m < last ==> list[m] == list[..last][m];
  }

  /** Every scanned project has its own entry, and there are no other entries. */
  lemma {:induction false} EntriesExact(list: seq<Project>, caps: map<nat, nat>)
    requires Ascending(list)
    ensures forall n :: 0 <= n < |list| ==>
              list[n].fomoIdx in Entries(list, caps) && Entries(list, caps)[list[n].fomoIdx] == EntryOf(caps, list[n])
  {
    if list != [] {
      var last := |list| - 1;
      EntriesExact(list[..last], caps);
      forall n | 0 <= n < last
        ensures list[n].fomoIdx in Entries(list, caps) && Entries(list, caps)[list[n].fomoIdx] == EntryOf(caps, list[n])
      {
        assert list[..last][n] == list[n];
        assert list[n].fomoIdx != list[last].fomoIdx;
      }
    }
  }

  lemma {:induction false} EntryHasProject(list: seq<Project>, caps: map<nat, nat>, idx: nat)
    requires idx in Entries(list, caps)
    ensures exists n :: 0 <= n < |list| && list[n].fomoIdx == idx && Entries(list, caps)[idx] == EntryOf(caps, list[n])
  {
    var last := |list| - 1;
    if idx != list[last].fomoIdx {
      EntryHasProject(list[..last], caps, idx);
      var n :| 0 <= n < last && list[..last][n].fomoIdx == idx
               && Entries(list[..last], caps)[idx] == EntryOf(caps, list[..last][n]);
      assert list[n].fomoIdx == idx;
    }
  }

  // ----- the write-back

  /** How a project's progress towards god of wells is brought up to date. */
  function GodStep(p: Project, cap: nat, maxCap: nat, now: nat): Project {
    if maxCap == 0 then p.(godProgress := 0)
    else if p.godProgress < FULL then
      var progress := cap * FULL / maxCap;
      if progress >= FULL then p.(godProgress := FULL, godTime := Some(now)) else p.(godProgress := progress)
    else if p.godProgress > FULL then p.(godProgress := FULL)
    else if p.godTime == None then p.(godTime := Some(now))
    else p
  }

  /** The check-and-set that decides whether a pool is queued for locking. */
  predicate Completes(p: Project, e: Entry) {
    e.poolProgress == FULL && p.doneTime == None
  }

  function Updated(p: Project, e: Entry, maxCap: nat, now: nat): Project {
    var q := GodStep(p.(poolProgress := e.poolProgress, marketCap := e.marketCap), e.marketCap, maxCap, now);
    if Completes(p, e) then q.(doneTime := Some(now)) else q
  }

  function WrittenBack(projects: map<nat, Project>, entries: map<nat, Entry>, maxCap: nat, now: nat)
    : map<nat, Project>
  {
    map idx | idx in projects ::
      if idx in entries then Updated(projects[idx], entries[idx], maxCap, now) else projects[idx]
  }

  /** The pools queued for locking by a write-back. */
  function Completed(projects: map<nat, Project>, entries: map<nat, Entry>): set<nat> {
    set idx | idx in projects && idx in entries && Completes(projects[idx], entries[idx])
  }

  // ----- buy or sell

  /** What set_buy_or_sell writes back: the record read before its awaits, brought up to date. */
  function TradedRecord(v: Project, cap: nat, maxCap: nat, now: nat): Project {
    GodStep(v, cap, maxCap, now).(
      poolProgress := CapProgress(RawProgress(cap)), marketCap := cap, recentlyBumpTime := now)
  }

  /** The market cap of the current god of wells. */
  function GodCap(projects: map<nat, Project>, godIdx: nat): nat {
    if godIdx in projects then projects[godIdx].marketCap else 0
  }

  /** Whether the traded project takes over as god of wells; item is a second, later read. */
  predicate TakesOver(v: Project, item: Project, cap: nat, maxCap: nat) {
    && cap > maxCap
    && ((RawProgress(cap) <= FULL && v.doneTime == None) || (RawProgress(cap) >= FULL && item.godTime == None))
  }

  // ----- bounds

  predicate Bounded(p: Project) {
    p.poolProgress <= FULL && p.godProgress <= FULL && (p.godProgress == FULL ==> p.godTime.Some?)
  }

  lemma GodStepBounded(p: Project, cap: nat, maxCap: nat, now: nat)
    requires Bounded(p)
    ensures Bounded(GodStep(p, cap, maxCap, now))
    ensures 0 < maxCap <= cap ==> GodStep(p, cap, maxCap, now).godProgress == FULL
  {
    if 0 < maxCap <= cap {
      Arith.MulMono(maxCap, cap, FULL);
      Arith.DivGreatest(cap * FULL, maxCap, FULL);
    }
  }

  // ----- progress in terms of the market caps

  /** Half a unit of market cap is one ten-thousandth of the way to 5000. */
  const HALF: nat := 500_000_000_000_000_000

  lemma RawProgressExact(cap: nat)
    ensures RawProgress(cap) * HALF <= cap < (RawProgress(cap) + 1) * HALF
  {
    Arith.DivBounds(cap * FULL, 5000);
    Arith.DivBounds(cap * FULL / 5000, 1_000_000_000_000_000_000);
  }

  /** g is how far cap has come on the way to 5000, in ten-thousandths. */
  predicate PoolAt(cap: nat, g: nat) {
    if FULL * HALF <= cap then g == FULL else g * HALF <= cap < (g + 1) * HALF
  }

  lemma CappedPoolAt(cap: nat)
    ensures PoolAt(cap, CapProgress(RawProgress(cap)))
  {
    RawProgressExact(cap);
  }

  /** A project below about 5000 stands for election until its pool is done, one from 5000 on
      until it has been god of wells; in between both count. */
  predicate Stands(doneTime: Option<nat>, godTime: Option<nat>, cap: nat) {
    (cap < (FULL + 1) * HALF && doneTime == None) || (FULL * HALF <= cap && godTime == None)
  }

  lemma EligibleExactly(p: Project, cap: nat)
    ensures Eligible(p, cap) <==> Stands(p.doneTime, p.godTime, cap)
  {
    RawProgressExact(cap);
  }

  lemma TakesOverExactly(v: Project, item: Project, cap: nat, maxCap: nat)
    ensures TakesOver(v, item, cap, maxCap) <==> cap > maxCap && Stands(v.doneTime, item.godTime, cap)
  {
    RawProgressExact(cap);
  }

  /** q is p with its progress towards god of wells brought up to date: its share of the
      largest cap, full from that cap on and then for good, with the time it became full;
      nothing while there is no largest cap. */
  predicate GodAt(p: Project, q: Project, cap: nat, maxCap: nat, now: nat) {
    if maxCap == 0 then q.godProgress == 0 && q.godTime == p.godTime
    else if p.godProgress >= FULL then
      q.godProgress == FULL && q.godTime == if p.godProgress == FULL then Some(p.godTime.GetOr(now)) else p.godTime
    else if cap >= maxCap then q.godProgress == FULL && q.godTime == Some(now)
    else q.godProgress * maxCap <= cap * FULL < (q.godProgress + 1) * maxCap && q.godTime == p.godTime
  }

  lemma GodStepExact(p: Project, cap: nat, maxCap: nat, now: nat)
    ensures var q := GodStep(p, cap, maxCap, now);
      && GodAt(p, q, cap, maxCap, now)
      && q == p.(godProgress := q.godProgress, godTime := q.godTime)
  {
    if 0 < maxCap {
      Arith.DivBounds(cap * FULL, maxCap);
      Arith.DivGreatest(cap * FULL, maxCap, FULL);
      if cap < maxCap {
        Arith.MulStrict(cap, maxCap, FULL);
      } else {
        Arith.MulMono(maxCap, cap, FULL);
      }
    }
  }

  /** What a scan leaves of a project: its progress on both counts, its cap and, once its
      pool is full, the time it was done; everything else as it was. */
  ghost predicate ScannedAs(p: Project, q: Project, cap: nat, maxCap: nat, now: nat) {
    && GodAt(p, q, cap, maxCap, now) && PoolAt(cap, q.poolProgress) && q.marketCap == cap
    && q.doneTime == (if FULL * HALF <= cap then Some(p.doneTime.GetOr(now)) else p.doneTime)
    && q.fomoIdx == p.fomoIdx && q.replyCount == p.replyCount
    && q.recentlyReplyTime == p.recentlyReplyTime && q.recentlyBumpTime == p.recentlyBumpTime
  }

  lemma UpdatedExactly(p: Project, cap: nat, maxCap: nat, now: nat)
    ensures ScannedAs(p, Updated(p, Entry(CapProgress(RawProgress(cap)), cap), maxCap, now), cap, maxCap, now)
  {
    CappedPoolAt(cap);
    GodStepExact(p.(poolProgress := CapProgress(RawProgress(cap)), marketCap := cap), cap, maxCap, now);
  }

  /** What a buy or sell leaves of the record it read: a bump besides, and no time done. */
  ghost predicate TradedAs(p: Project, q: Project, cap: nat, maxCap: nat, now: nat) {
    && GodAt(p, q, cap, maxCap, now) && PoolAt(cap, q.poolProgress) && q.marketCap == cap
    && q.doneTime == p.doneTime && q.fomoIdx == p.fomoIdx && q.replyCount == p.replyCount
    && q.recentlyReplyTime == p.recentlyReplyTime && q.recentlyBumpTime == now
  }

  lemma TradedExactly(p: Project, cap: nat, maxCap: nat, now: nat)
    ensures TradedAs(p, TradedRecord(p, cap, maxCap, now), cap, maxCap, now)
  {
    CappedPoolAt(cap);
    GodStepExact(p, cap, maxCap, now);
  }
}
