/** The launcher's project map as the source updates it, one method for each segment
    that runs between awaits. */
module Progress {
  import opened Checked
  import opened ProgressSpec
  import Board

  /** The scan of update_progress: one oracle answer per project, in index order. */
  method Scan(list: seq<Project>, caps: map<nat, nat>) returns (election: Election, entries: map<nat, Entry>)
    ensures election == Elect(list, caps)
    ensures entries == Entries(list, caps)
  {
    var maxMarketCap, maxIdx := 0, 0;
    entries := map[];
    for n := 0 to |list|
      invariant Election(maxMarketCap, maxIdx) == Elect(list[..n], caps)
      invariant entries == Entries(list[..n], caps)
    {
      var item := list[n];
      assert list[..n + 1][..n] == list[..n];
      var marketCap := CapOf(caps, item);
      var poolProgress := RawProgress(marketCap);
      if marketCap > maxMarketCap && poolProgress <= FULL && item.doneTime == None {
        maxMarketCap, maxIdx := marketCap, item.fomoIdx;
      } else if marketCap > maxMarketCap && poolProgress >= FULL && item.godTime == None {
        maxMarketCap, maxIdx := marketCap, item.fomoIdx;
      }
      if poolProgress > FULL {
        poolProgress := FULL;
      }
      entries := entries[item.fomoIdx := Entry(poolProgress, marketCap)];
    }
    assert list[..|list|] == list;
    election := Election(maxMarketCap, maxIdx);
  }

  lemma QueueOne(list: seq<nat>, queued: set<nat>, idx: nat)
    requires multiset(list) == multiset(queued) && idx !in queued
    ensures multiset(list + [idx]) == multiset(queued + {idx})
  {
  }

  /** The state of every suspended call is its own local variables; the ghost fields collect
      them, so that each method can be held against the state machine. */
  class Launcher {
    var projects: map<nat, Project>
    var godOfWellsIdx: nat
    var count: nat
    ghost var creating: set<nat>
    ghost var scans: map<nat, seq<Project>>
    ghost var buys: map<nat, Board.Buy>
    ghost var locked: multiset<nat>

    ghost function State(): Board.State
      reads this
    {
      Board.State(projects, godOfWellsIdx, count, creating, scans, buys, locked)
    }

    constructor ()
      ensures State() == Board.INITIAL
    {
      projects, godOfWellsIdx, count := map[], 1, 0;
      creating, scans, buys, locked := {}, map[], map[], multiset{};
    }

    method Count() returns (idx: nat)
      modifies this`count, this`creating
      ensures idx == count == old(count) + 1
      ensures State() == Board.Next(old(State()), Board.Allocate)
    {
      count := count + 1;
      creating := creating + {count};
      return count;
    }

    /** The last segment of create_fomo, with the index it was given by count(). */
    method Create(idx: nat)
      requires idx in creating
      modifies this`projects, this`creating
      ensures State() == Board.Next(old(State()), Board.CreateCommit(idx))
      ensures projects == old(projects)[idx := Project(idx, 0, None, 0, None, 0, 0, 0, 0)]
    {
      projects := projects[idx := Project(idx, 0, None, 0, None, 0, 0, 0, 0)];
      creating := creating - {idx};
    }

    /** reply_update panics on an unknown project. */
    method ReplyUpdate(idx: nat, now: nat) returns (ok: bool)
      modifies this`projects
      ensures ok == Board.Enabled(old(State()), Board.Reply(idx, now))
      ensures State() == Board.Next(old(State()), Board.Reply(idx, now))
      ensures ok ==> projects[idx].recentlyReplyTime == now
                     && projects[idx].replyCount == old(projects)[idx].replyCount + 1
    {
      if idx !in projects { return false; }
      var v := projects[idx];
      projects := projects[idx := v.(replyCount := v.replyCount + 1, recentlyReplyTime := now)];
      return true;
    }

    /** The loop that collects the project map in index order. */
    method List() returns (list: seq<Project>)
      ensures list == Board.Snapshot(projects, count)
    {
      list := [];
      for n := 0 to count
        invariant list == Board.Snapshot(projects, n)
      {
        if n + 1 in projects {
          list := list + [projects[n + 1]];
        }
      }
    }

    /** update_progress up to its first await. */
    method ScanStart(ghost id: nat) returns (list: seq<Project>)
      requires id !in scans
      modifies this`scans
      ensures State() == Board.Next(old(State()), Board.ScanStart(id)) && scans[id] == list
    {
      list := List();
      scans := scans[id := list];
    }

    /** update_progress after its oracle answers: elects, writes back, and returns the pools
        to lock, each once. */
    method ScanFinish(ghost id: nat, list: seq<Project>, caps: map<nat, nat>, now: nat)
        returns (lockFomoIdxList: seq<nat>)
      requires id in scans && scans[id] == list
      modifies this`projects, this`godOfWellsIdx, this`scans, this`locked
      ensures State() == Board.Next(old(State()), Board.ScanFinish(id, caps, now))
      ensures locked == old(locked) + multiset(lockFomoIdxList)
    {
      var election, entries := Scan(list, caps);
      lockFomoIdxList := WriteBack(election, entries, now);
      locked := locked + multiset(lockFomoIdxList);
      scans := scans - {id};
    }

    /** set_buy_or_sell up to its first await; an unknown project makes it panic later. */
    method BuyRead(ghost id: nat, k: nat) returns (v: Option<Project>)
      requires id !in buys
      modifies this`buys
      ensures State() == Board.Next(old(State()), Board.BuyRead(id, k))
      ensures v == if k in projects then Some(projects[k]) else None
      ensures v.Some? ==> buys[id] == Board.Buy(k, v.value, None)
    {
      if k !in projects { return None; }
      v := Some(projects[k]);
      buys := buys[id := Board.Buy(k, projects[k], None)];
    }

    /** The second read of set_buy_or_sell. */
    method BuyItem(ghost id: nat, k: nat) returns (item: Project)
      requires Board.Enabled(State(), Board.BuyItem(id)) && buys[id].k == k
      modifies this`buys
      ensures State() == Board.Next(old(State()), Board.BuyItem(id)) && buys[id].item == Some(item)
      ensures item == projects[k]
    {
      item := projects[k];
      buys := buys[id := buys[id].(item := Some(item))];
    }

    /** The last segment of set_buy_or_sell: v and item were read before earlier awaits. */
    method BuyCommit(ghost id: nat, k: nat, v: Project, item: Project, marketCap: nat, now: nat)
      requires id in buys && buys[id] == Board.Buy(k, v, Some(item))
      modifies this`projects, this`godOfWellsIdx, this`buys
      ensures State() == Board.Next(old(State()), Board.BuyCommit(id, marketCap, now))
      ensures TradedAs(v, projects[k], marketCap, GodCap(old(projects), old(godOfWellsIdx)), now)
    {
      TradedExactly(v, marketCap, GodCap(projects, godOfWellsIdx), now);
      var poolProgress := RawProgress(marketCap);
      var maxMarketCap := if godOfWellsIdx in projects then projects[godOfWellsIdx].marketCap else 0;
      if marketCap > maxMarketCap && poolProgress <= FULL && v.doneTime == None {
        godOfWellsIdx := k;
      } else if marketCap > maxMarketCap && poolProgress >= FULL && item.godTime == None {
        godOfWellsIdx := k;
      }
      var w := GodStep(v, marketCap, maxMarketCap, now);
      if poolProgress > FULL {
        poolProgress := FULL;
      }
      projects := projects[k := w.(poolProgress := poolProgress, marketCap := marketCap, recentlyBumpTime := now)];
      buys := buys - {id};
    }

    /** One entry of the write-back; returns whether the pool is to be locked. */
    method WriteEntry(idx: nat, e: Entry, maxCap: nat, now: nat) returns (lock: bool)
      modifies this`projects
      ensures lock == (idx in old(projects) && Completes(old(projects)[idx], e))
      ensures projects == if idx in old(projects) then old(projects)[idx := Updated(old(projects)[idx], e, maxCap, now)]
                          else old(projects)
      ensures idx in old(projects) ==> GodAt(old(projects)[idx], projects[idx], e.marketCap, maxCap, now)
    {
      if idx !in projects { return false; }
      var pj := projects[idx];
      GodStepExact(pj.(poolProgress := e.poolProgress, marketCap := e.marketCap), e.marketCap, maxCap, now);
      pj := GodStep(pj.(poolProgress := e.poolProgress, marketCap := e.marketCap), e.marketCap, maxCap, now);
      lock := e.poolProgress == FULL && pj.doneTime == None;
      if lock {
        pj := pj.(doneTime := Some(now));
      }
      projects := projects[idx := pj];
    }

    /** The write-back of update_progress, in whatever order the hash map yields its
        entries; returns the pools to lock, each once. */
    method WriteBack(election: Election, entries: map<nat, Entry>, now: nat) returns (lockFomoIdxList: seq<nat>)
      modifies this`projects, this`godOfWellsIdx
      ensures projects == WrittenBack(old(projects), entries, election.cap, now)
      ensures godOfWellsIdx == election.idx
      ensures multiset(lockFomoIdxList) == multiset(Completed(old(projects), entries))
    {
      godOfWellsIdx := election.idx;
      lockFomoIdxList := [];
      var rest := entries.Keys;
      ghost var done: set<nat> := {};
      ghost var start, all := projects, Completed(projects, entries);
      ghost var queued: set<nat> := {};
      while rest != {}
        invariant done !! rest && done + rest == entries.Keys
        invariant projects.Keys == start.Keys && godOfWellsIdx == election.idx
        invariant forall k :: k in start ==>
                    projects[k] == if k in done then Updated(start[k], entries[k], election.cap, now) else start[k]
        invariant forall k :: k in queued <==> k in all && k in done
        invariant multiset(lockFomoIdxList) == multiset(queued)
        decreases rest
      {
        var idx :| idx in rest;
        var lock := WriteEntry(idx, entries[idx], election.cap, now);
        assert lock <==> idx in all;
        if lock {
          QueueOne(lockFomoIdxList, queued, idx);
          lockFomoIdxList := lockFomoIdxList + [idx];
          queued := queued + {idx};
        }
        done, rest := done + {idx}, rest - {idx};
      }
      assert queued == all;
    }
  }
}
