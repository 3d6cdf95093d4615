/** What one segment does to each project, in terms of market caps and events, and how far
    reply counts can be trusted over whole runs. */
module BoardEffects {
  import opened Checked
  import opened ProgressSpec
  import opened Board

  /** The cap the oracle reports for project k; errors and missing entries read as zero. */
  function Reported(caps: map<nat, nat>, k: nat): nat {
    if k in caps then caps[k] else 0
  }

  /** Every project a finished scan had listed, by its reported cap and the largest one; those
      at 5000 and not yet done are queued for locking, each once. */
  lemma ScanFinishExact(s: State, e: Event, n: nat)
    requires WellFormed(s) && e.ScanFinish? && e.id in s.scans && n < |s.scans[e.id]|
    ensures var list, t := s.scans[e.id], Next(s, e); var k := list[n].fomoIdx;
      && k in s.projects && k in t.projects
      && ScannedAs(s.projects[k], t.projects[k], Reported(e.caps, k), Elect(list, e.caps).cap, e.now)
      && t.locked[k] == s.locked[k]
           + (if FULL * HALF <= Reported(e.caps, k) && s.projects[k].doneTime == None then 1 else 0)
  {
    var list := s.scans[e.id];
    var k := list[n].fomoIdx;
    EntriesExact(list, e.caps);
    UpdatedExactly(s.projects[k], Reported(e.caps, k), Elect(list, e.caps).cap, e.now);
    CappedPoolAt(Reported(e.caps, k));
    FinishLocks(s, list, e.caps, e.now, k);
  }

  /** The winner's cap is the largest reported one among the listed projects that stand. */
  lemma ElectedCapIsMax(list: seq<Project>, caps: map<nat, nat>)
    ensures var e := Elect(list, caps);
      && (forall n :: 0 <= n < |list| && Stands(list[n].doneTime, list[n].godTime, Reported(caps, list[n].fomoIdx)) ==>
            Reported(caps, list[n].fomoIdx) <= e.cap)
      && (if e.cap == 0 then e.idx == 0
          else exists n :: 0 <= n < |list| && list[n].fomoIdx == e.idx && Reported(caps, e.idx) == e.cap
                           && Stands(list[n].doneTime, list[n].godTime, e.cap))
  {
    ElectionIsArgmax(list, caps);
    var e := Elect(list, caps);
    if e.cap > 0 {
      var w :| Wins(list, caps, w) && e == Election(CapOf(caps, list[w]), list[w].fomoIdx);
      EligibleExactly(list[w], e.cap);
    }
    forall n | 0 <= n < |list| && Stands(list[n].doneTime, list[n].godTime, Reported(caps, list[n].fomoIdx))
      ensures Reported(caps, list[n].fomoIdx) <= e.cap
    {
      EligibleExactly(list[n], CapOf(caps, list[n]));
    }
  }

  /** A project the scan had not listed, such as one created meanwhile, is left alone. */
  lemma ScanFinishOthers(s: State, e: Event, k: nat)
    requires e.ScanFinish? && e.id in s.scans && k in s.projects
    requires forall n :: 0 <= n < |s.scans[e.id]| ==> s.scans[e.id][n].fomoIdx != k
    ensures k in Next(s, e).projects && Next(s, e).projects[k] == s.projects[k]
    ensures Next(s, e).locked[k] == s.locked[k]
  {
    FinishLocks(s, s.scans[e.id], e.caps, e.now, k);
    if k in Entries(s.scans[e.id], e.caps) {
      EntryHasProject(s.scans[e.id], e.caps, k);
    }
  }

  /** A finished buy or sell writes back the record read first, brought up to date against
      the current god of wells, and takes over if its cap is larger and it stands. */
  lemma BuyCommitExact(s: State, e: Event)
    requires e.BuyCommit? && Enabled(s, e)
    ensures var t, b := Next(s, e), s.buys[e.id];
      var maxCap := if s.godIdx in s.projects then s.projects[s.godIdx].marketCap else 0;
      && t.projects.Keys == s.projects.Keys + {b.k}
      && TradedAs(b.v, t.projects[b.k], e.cap, maxCap, e.now)
      && (forall k :: k in s.projects && k != b.k ==> t.projects[k] == s.projects[k])
      && t.godIdx == (if e.cap > maxCap && Stands(b.v.doneTime, b.item.value.godTime, e.cap) then b.k else s.godIdx)
      && t == s.(projects := t.projects, godIdx := t.godIdx, buys := s.buys - {e.id})
  {
    var b := s.buys[e.id];
    TradedExactly(b.v, e.cap, GodCap(s.projects, s.godIdx), e.now);
    TakesOverExactly(b.v, b.item.value, e.cap, GodCap(s.projects, s.godIdx));
  }

  // ----- replies

  /** Only a reply counts a reply, and only a write-back can forget one: it restores the
      count it read before its awaits. */
  lemma NextReplies(s: State, e: Event, k: nat)
    requires WellFormed(s) && k in s.projects
    ensures k in Next(s, e).projects
    ensures Next(s, e).projects[k].replyCount
         == if e.Reply? && e.idx == k then s.projects[k].replyCount + 1
            else if WritesBack(s, e, k) then s.buys[e.id].v.replyCount
            else s.projects[k].replyCount
  {
    if Enabled(s, e) {
      match e
      case ScanFinish(id, caps, now) =>
        if k in Entries(s.scans[id], caps) {
          EntryHasProject(s.scans[id], caps, k);
          UpdatedExactly(s.projects[k], Entries(s.scans[id], caps)[k].marketCap, Elect(s.scans[id], caps).cap, now);
        }
      case BuyCommit(id, cap, now) => BuyCommitExact(s, e);
      case _ =>
    }
  }

  predicate WritesBack(s: State, e: Event, k: nat) {
    e.BuyCommit? && Enabled(s, e) && s.buys[e.id].k == k
  }

  predicate NoWriteBack(s: State, events: seq<Event>, k: nat)
    decreases |events|
  {
    events == [] || (!WritesBack(s, events[0], k) && NoWriteBack(Next(s, events[0]), events[1..], k))
  }

  function RepliesTo(events: seq<Event>, k: nat): nat {
    if events == [] then 0
    else (if events[0].Reply? && events[0].idx == k then 1 else 0) + RepliesTo(events[1..], k)
  }

  /** Over every interleaving in which the project is not written back, its reply count grows by
      exactly the replies to it. */
  lemma {:induction false} RepliesCounted(s: State, events: seq<Event>, k: nat)
    requires WellFormed(s) && k in s.projects && NoWriteBack(s, events, k)
    ensures k in Run(s, events).projects
    ensures Run(s, events).projects[k].replyCount == s.projects[k].replyCount + RepliesTo(events, k)
    decreases |events|
  {
    if events != [] {
      NextWellFormed(s, events[0]);
      NextReplies(s, events[0], k);
      RepliesCounted(Next(s, events[0]), events[1..], k);
    }
  }

  /** A reply that arrives while a buy or sell is suspended is forgotten. */
  lemma ReplyForgotten(id: nat, cap: nat, now: nat)
    ensures var p := NewProject(1);
      var s := State(map[1 := p], 1, 1, {}, map[], map[id := Buy(1, p, Some(p))], multiset{});
      && WellFormed(s)
      && Next(s, Reply(1, now)).projects[1].replyCount == 1
      && var t := Run(s, [Reply(1, now), BuyCommit(id, cap, now)]);
         1 in t.projects && t.projects[1].replyCount == 0
  {
    var p := NewProject(1);
    var s := State(map[1 := p], 1, 1, {}, map[], map[id := Buy(1, p, Some(p))], multiset{});
    var t := Next(s, Reply(1, now));
    BuyCommitExact(t, BuyCommit(id, cap, now));
    assert [Reply(1, now), BuyCommit(id, cap, now)][1..] == [BuyCommit(id, cap, now)];
    assert [BuyCommit(id, cap, now)][1..] == [];
    assert Run(t, [BuyCommit(id, cap, now)]) == Run(Next(t, BuyCommit(id, cap, now)), []);
  }
}
