/** The launcher's points on values: profiles, an append-only history, and what every
    interleaving of their atomic segments keeps. */
module PointsSpec {
  import opened Checked
  import opened Principals

  datatype Profile = Profile(points: Option<nat>, preReward: Option<nat>, allSpend: Option<nat>)

  datatype OpType = INIT | ADD | DEDUCT

  datatype PointHistory = PointHistory(idx: nat, user: Principal, opType: OpType, busiName: string, amount: nat)

  datatype Points = Points(profiles: map<Principal, Profile>, history: map<nat, PointHistory>, pointCount: nat)

  /** What points start from when they are first initialised. */
  const INITIAL: nat := 20

  // ----- atomic segments

  /** count_point, then insert under the new index. */
  function Log(s: Points, user: Principal, opType: OpType, busiName: string, amount: nat): Points {
    var idx := s.pointCount + 1;
    s.(history := s.history[idx := PointHistory(idx, user, opType, busiName, amount)], pointCount := idx)
  }

  function SetProfile(s: Points, user: Principal, p: Profile): Points {
    s.(profiles := s.profiles[user := p])
  }

  function Initialised(p: Profile): Profile {
    if p.points == None then p.(points := Some(INITIAL + p.preReward.GetOr(0))) else p
  }

  function Added(p: Profile, amount: nat): Profile {
    match p.points
    case Some(n) => p.(points := Some(n + amount))
    case None => p.(preReward := Some(p.preReward.GetOr(0) + amount))
  }

  predicate CanDeduct(p: Profile, amount: nat) {
    p.points.Some? && amount <= p.points.value
  }

  function Deducted(p: Profile, amount: nat): Profile
    requires CanDeduct(p, amount)
  {
    p.(points := Some(p.points.value - amount), allSpend := Some(p.allSpend.GetOr(0) + amount))
  }

  /** edit_user before its first await. */
  function EditOpened(p: Profile): Profile {
    if p.points == None && p.allSpend == None then p.(allSpend := Some(0)) else p
  }

  /** edit_user after its last await. */
  function EditClosed(p: Profile): Profile {
    var q := if p.points == None || p.allSpend == None then p.(allSpend := Some(0)) else p;
    if q.preReward == None then q.(preReward := Some(0)) else q
  }

  /** What a business costs; any other name panics. */
  function Price(busiName: string): Option<nat> {
    if busiName == "COMMENT" then Some(6)
    else if busiName == "IMAGE_COMMENT" then Some(6)
    else if busiName == "EDIT_AVATAR" then Some(8)
    else None
  }

  datatype Op =
    | CountPoint                      // count_point is itself a public update call
    | InitPoints(user: Principal)
    | AddPoints(user: Principal, amount: nat, busiName: string)
    | DeductPoints(user: Principal, amount: nat, busiName: string)
    | SpendingPoints(authorised: bool, user: Principal, busiName: string)
    | InitThenAdd(user: Principal, amount: nat, busiName: string)
    | EditOpen(user: Principal)
    | EditClose(user: Principal)

  /** Whether the segment runs to its end; otherwise it panics or is refused, and changes nothing. */
  predicate Runs(s: Points, op: Op) {
    match op
    case CountPoint => true
    case InitPoints(user) => user in s.profiles
    case AddPoints(user, _, _) => user in s.profiles
    case DeductPoints(user, amount, _) => user in s.profiles && CanDeduct(s.profiles[user], amount)
    case SpendingPoints(authorised, user, busiName) =>
      authorised && Price(busiName).Some?
      && user in s.profiles && CanDeduct(s.profiles[user], Price(busiName).value)
    case InitThenAdd(user, _, _) => user in s.profiles
    case EditOpen(user) => user != Anonymous
    case EditClose(user) => user != Anonymous
  }

  function Apply(s: Points, op: Op): Points {
    if !Runs(s, op) then s
    else
      match op
      case CountPoint => s.(pointCount := s.pointCount + 1)
      case InitPoints(user) => DoInit(s, user)
      case AddPoints(user, amount, busiName) => DoAdd(s, user, amount, busiName)
      case DeductPoints(user, amount, busiName) => DoDeduct(s, user, amount, busiName)
      case SpendingPoints(_, user, busiName) => DoDeduct(s, user, Price(busiName).value, busiName)
      case InitThenAdd(user, amount, busiName) => DoAdd(DoInit(s, user), user, amount, busiName)
      case EditOpen(user) =>
        if user in s.profiles then SetProfile(s, user, EditOpened(s.profiles[user])) else s
      case EditClose(user) =>
        SetProfile(s, user, if user in s.profiles then EditClosed(s.profiles[user])
                            else Profile(None, Some(0), Some(0)))
  }

  function DoInit(s: Points, user: Principal): Points
    requires user in s.profiles
  {
    Log(SetProfile(s, user, Initialised(s.profiles[user])), user, INIT, "INIT", INITIAL)
  }

  function DoAdd(s: Points, user: Principal, amount: nat, busiName: string): Points
    requires user in s.profiles
  {
    Log(SetProfile(s, user, Added(s.profiles[user], amount)), user, ADD, busiName, amount)
  }

  function DoDeduct(s: Points, user: Principal, amount: nat, busiName: string): Points
    requires user in s.profiles && CanDeduct(s.profiles[user], amount)
  {
    Log(SetProfile(s, user, Deducted(s.profiles[user], amount)), user, DEDUCT, busiName, amount)
  }

  function Run(s: Points, ops: seq<Op>): Points
    decreases |ops|
  {
    if ops == [] then s else Run(Apply(s, ops[0]), ops[1..])
  }

  const EMPTY := Points(map[], map[], 0)

  // ----- replaying the history

  /** The sum of a user's entries of one kind among the first n. */
  function Replay(h: map<nat, PointHistory>, n: nat, kind: OpType, user: Principal): nat {
    if n == 0 then 0
    else
      Replay(h, n - 1, kind, user)
      + (if n in h && h[n].opType == kind && h[n].user == user then h[n].amount else 0)
  }

  /** Entries lie within the count; a public count_point call leaves an index unused. */
  ghost predicate HistoryWellFormed(s: Points) {
    forall n :: n in s.history ==> 1 <= n <= s.pointCount && s.history[n].idx == n
  }

  /** A profile agrees with the replay of the whole history. */
  predicate Agrees(s: Points, user: Principal, p: Profile) {
    var added, deducted := Replay(s.history, s.pointCount, ADD, user), Replay(s.history, s.pointCount, DEDUCT, user);
    && p.allSpend.GetOr(0) == deducted
    && match p.points
       case Some(n) => n == INITIAL + added - deducted
       case None => p.preReward.GetOr(0) == added && deducted == 0
  }

  ghost predicate Consistent(s: Points) {
    && HistoryWellFormed(s)
    && (forall user :: user in s.profiles ==> Agrees(s, user, s.profiles[user]))
    && (forall user :: user !in s.profiles ==> Agrees(s, user, Profile(None, None, None)))
  }

  /** No entry is ever changed or removed. */
  ghost predicate Extends(s: Points, t: Points) {
    s.pointCount <= t.pointCount && forall n :: n in s.history ==> n in t.history && t.history[n] == s.history[n]
  }

  lemma {:induction false} ReplayIgnoresLater(h: map<nat, PointHistory>, n: nat, idx: nat, e: PointHistory,
                                              kind: OpType, user: Principal)
    requires n < idx
    ensures Replay(h[idx := e], n, kind, user) == Replay(h, n, kind, user)
  {
    if n > 0 {
      ReplayIgnoresLater(h, n - 1, idx, e, kind, user);
    }
  }

  /** A new entry adds its amount to its own user's sum of its own kind, and to no other. */
  lemma LogReplay(s: Points, user: Principal, opType: OpType, busiName: string, amount: nat,
                  kind: OpType, other: Principal)
    ensures var t := Log(s, user, opType, busiName, amount);
      Replay(t.history, t.pointCount, kind, other)
      == Replay(s.history, s.pointCount, kind, other) + (if kind == opType && other == user then amount else 0)
  {
    var idx := s.pointCount + 1;
    ReplayIgnoresLater(s.history, s.pointCount, idx, PointHistory(idx, user, opType, busiName, amount), kind, other);
  }

  lemma LogConsistent(s: Points, user: Principal, p: Profile, opType: OpType, busiName: string, amount: nat)
    requires Consistent(s) && user in s.profiles
    requires var t := Log(s, user, opType, busiName, amount); Agrees(t, user, p)
    ensures var t := Log(SetProfile(s, user, p), user, opType, busiName, amount); Consistent(t) && Extends(s, t)
  {
    var t := Log(SetProfile(s, user, p), user, opType, busiName, amount);
    forall other, q | other != user
      ensures Agrees(t, other, q) <==> Agrees(s, other, q)
    {
      LogReplay(SetProfile(s, user, p), user, opType, busiName, amount, ADD, other);
      LogReplay(SetProfile(s, user, p), user, opType, busiName, amount, DEDUCT, other);
    }
  }

  lemma InitConsistent(s: Points, user: Principal)
    requires Consistent(s) && user in s.profiles
    ensures Consistent(DoInit(s, user)) && Extends(s, DoInit(s, user))
  {
    LogReplay(s, user, INIT, "INIT", INITIAL, ADD, user);
    LogReplay(s, user, INIT, "INIT", INITIAL, DEDUCT, user);
    LogConsistent(s, user, Initialised(s.profiles[user]), INIT, "INIT", INITIAL);
  }

  lemma AddConsistent(s: Points, user: Principal, amount: nat, busiName: string)
    requires Consistent(s) && user in s.profiles
    ensures Consistent(DoAdd(s, user, amount, busiName)) && Extends(s, DoAdd(s, user, amount, busiName))
  {
    LogReplay(s, user, ADD, busiName, amount, ADD, user);
    LogReplay(s, user, ADD, busiName, amount, DEDUCT, user);
    LogConsistent(s, user, Added(s.profiles[user], amount), ADD, busiName, amount);
  }

  lemma DeductConsistent(s: Points, user: Principal, amount: nat, busiName: string)
    requires Consistent(s) && user in s.profiles && CanDeduct(s.profiles[user], amount)
    ensures Consistent(DoDeduct(s, user, amount, busiName)) && Extends(s, DoDeduct(s, user, amount, busiName))
  {
    LogReplay(s, user, DEDUCT, busiName, amount, ADD, user);
    LogReplay(s, user, DEDUCT, busiName, amount, DEDUCT, user);
    LogConsistent(s, user, Deducted(s.profiles[user], amount), DEDUCT, busiName, amount);
  }

  lemma ApplyConsistent(s: Points, op: Op)
    requires Consistent(s)
    ensures Consistent(Apply(s, op)) && Extends(s, Apply(s, op))
  {
    if Runs(s, op) {
      match op
      case CountPoint => CountConsistent(s);
      case InitPoints(user) => InitConsistent(s, user);
      case AddPoints(user, amount, busiName) => AddConsistent(s, user, amount, busiName);
      case DeductPoints(user, amount, busiName) => DeductConsistent(s, user, amount, busiName);
      case SpendingPoints(_, user, busiName) => DeductConsistent(s, user, Price(busiName).value, busiName);
      case InitThenAdd(user, amount, busiName) =>
        InitConsistent(s, user);
        AddConsistent(DoInit(s, user), user, amount, busiName);
      case EditOpen(user) =>
        if user in s.profiles {
          EditConsistent(s, user, EditOpened(s.profiles[user]));
        }
      case EditClose(user) =>
        assert user !in s.profiles ==> Agrees(s, user, Profile(None, None, None));
        EditConsistent(s, user, if user in s.profiles then EditClosed(s.profiles[user])
                                else Profile(None, Some(0), Some(0)));
    }
  }

  /** An unused index adds nothing to any sum. */
  lemma CountConsistent(s: Points)
    requires Consistent(s)
    ensures Consistent(Apply(s, CountPoint)) && Extends(s, Apply(s, CountPoint))
  {
    var t := Apply(s, CountPoint);
    forall user, p
      ensures Agrees(t, user, p) <==> Agrees(s, user, p)
    {
      assert Replay(t.history, t.pointCount, ADD, user) == Replay(s.history, s.pointCount, ADD, user);
      assert Replay(t.history, t.pointCount, DEDUCT, user) == Replay(s.history, s.pointCount, DEDUCT, user);
    }
  }

  /** Replacing a profile by one that agrees with the same history. */
  lemma EditConsistent(s: Points, user: Principal, p: Profile)
    requires Consistent(s) && Agrees(s, user, p)
    ensures Consistent(SetProfile(s, user, p)) && Extends(s, SetProfile(s, user, p))
  {
    var t := SetProfile(s, user, p);
    assert forall other, q :: Agrees(t, other, q) <==> Agrees(s, other, q);
  }

  /** In every reachable state each balance is the replay of that user's history, and the
      history of every earlier state is still there, entry for entry. */
  lemma {:induction false} RunConsistent(s: Points, ops: seq<Op>)
    requires Consistent(s)
    ensures Consistent(Run(s, ops)) && Extends(s, Run(s, ops))
    decreases |ops|
  {
    if ops != [] {
      ApplyConsistent(s, ops[0]);
      RunConsistent(Apply(s, ops[0]), ops[1..]);
    }
  }

  lemma EmptyConsistent()
    ensures Consistent(EMPTY)
  {
  }

  /** Nobody ever spends more than the initial points and what was added. */
  lemma SpendingIsCovered(ops: seq<Op>, user: Principal)
    ensures var s := Run(EMPTY, ops);
      Replay(s.history, s.pointCount, DEDUCT, user) <= INITIAL + Replay(s.history, s.pointCount, ADD, user)
  {
    EmptyConsistent();
    RunConsistent(EMPTY, ops);
    var s := Run(EMPTY, ops);
    assert Agrees(s, user, if user in s.profiles then s.profiles[user] else Profile(None, None, None));
  }

  // ----- what each segment is for

  /** What spending on a business costs. */
  predicate Costs(busiName: string, amount: nat) {
    || ((busiName == "COMMENT" || busiName == "IMAGE_COMMENT") && amount == 6)
    || (busiName == "EDIT_AVATAR" && amount == 8)
  }

  /** A user with points to spend. */
  predicate Holds(s: Points, user: Principal, amount: nat) {
    user in s.profiles && s.profiles[user].points.Some? && amount <= s.profiles[user].points.value
  }

  /** What a segment adds to a user's sum of entries of one kind. */
  ghost predicate Contributes(s: Points, op: Op, kind: OpType, user: Principal, amount: nat) {
    match op
    case InitPoints(u) => if u == user && kind == INIT && u in s.profiles then amount == 20 else amount == 0
    case AddPoints(u, n, _) => if u == user && kind == ADD && u in s.profiles then amount == n else amount == 0
    case InitThenAdd(u, n, _) =>
      if u != user || u !in s.profiles || kind == DEDUCT then amount == 0
      else if kind == INIT then amount == 20
      else amount == n
    case DeductPoints(u, n, _) => if u == user && kind == DEDUCT && Holds(s, u, n) then amount == n else amount == 0
    case SpendingPoints(authorised, u, busiName) =>
      if authorised && u == user && kind == DEDUCT && exists n :: Costs(busiName, n) && Holds(s, u, n)
      then Costs(busiName, amount)
      else amount == 0
    case _ => amount == 0
  }

  /** Every segment adds exactly its own contribution to every sum, and with Consistent that
      determines every balance: 20 and what was added, less what was deducted. */
  lemma ApplySums(s: Points, op: Op, kind: OpType, user: Principal, amount: nat)
    requires Consistent(s) && Contributes(s, op, kind, user, amount)
    ensures var t := Apply(s, op);
      Replay(t.history, t.pointCount, kind, user) == Replay(s.history, s.pointCount, kind, user) + amount
  {
    match op
    case CountPoint => CountSums(s, kind, user);
    case InitPoints(u) => LogReplay(s, u, INIT, "INIT", INITIAL, kind, user);
    case AddPoints(u, n, busiName) => LogReplay(s, u, ADD, busiName, n, kind, user);
    case InitThenAdd(u, n, busiName) =>
      if u in s.profiles {
        InitThenAddSums(s, u, n, busiName, kind, user);
      }
    case DeductPoints(u, n, busiName) => LogReplay(s, u, DEDUCT, busiName, n, kind, user);
    case SpendingPoints(_, u, busiName) => SpendingSums(s, op, kind, user, amount);
    case _ =>
  }

  lemma CountSums(s: Points, kind: OpType, user: Principal)
    requires HistoryWellFormed(s)
    ensures Replay(s.history, s.pointCount + 1, kind, user) == Replay(s.history, s.pointCount, kind, user)
  {
  }

  lemma InitThenAddSums(s: Points, u: Principal, n: nat, busiName: string, kind: OpType, user: Principal)
    requires u in s.profiles
    ensures var t := DoAdd(DoInit(s, u), u, n, busiName);
      Replay(t.history, t.pointCount, kind, user) == Replay(s.history, s.pointCount, kind, user)
        + (if u != user || kind == DEDUCT then 0 else if kind == INIT then INITIAL else n)
  {
    LogReplay(s, u, INIT, "INIT", INITIAL, kind, user);
    LogReplay(DoInit(s, u), u, ADD, busiName, n, kind, user);
  }

  lemma PriceIsCost(busiName: string, n: nat)
    ensures Costs(busiName, n) <==> Price(busiName) == Some(n)
  {
  }

  lemma SpendingSums(s: Points, op: Op, kind: OpType, user: Principal, amount: nat)
    requires Consistent(s) && op.SpendingPoints? && Contributes(s, op, kind, user, amount)
    ensures var t := Apply(s, op);
      Replay(t.history, t.pointCount, kind, user) == Replay(s.history, s.pointCount, kind, user) + amount
  {
    PriceIsCost(op.busiName, amount);
    forall n: nat
      ensures Costs(op.busiName, n) <==> Price(op.busiName) == Some(n)
    {
      PriceIsCost(op.busiName, n);
    }
    if Runs(s, op) {
      LogReplay(s, op.user, DEDUCT, op.busiName, Price(op.busiName).value, kind, user);
      assert Costs(op.busiName, Price(op.busiName).value) && Holds(s, op.user, Price(op.busiName).value);
    }
  }

  /** Spending points goes through exactly for the launcher or a known project, a known business
      and a user who holds its cost. */
  lemma SpendingRunsIff(s: Points, authorised: bool, user: Principal, busiName: string)
    ensures Runs(s, SpendingPoints(authorised, user, busiName)) <==>
            authorised && exists n :: Costs(busiName, n) && Holds(s, user, n)
  {
    forall n: nat
      ensures Costs(busiName, n) <==> Price(busiName) == Some(n)
    {
      PriceIsCost(busiName, n);
    }
    if Price(busiName).Some? {
      assert Costs(busiName, Price(busiName).value);
    }
  }

  /** A segment that moves points leaves one last entry that names its user and its business;
      a first top-up leaves the initial entry just before it. */
  lemma LastEntry(s: Points, op: Op)
    requires Runs(s, op) && !op.CountPoint? && !op.EditOpen? && !op.EditClose?
    ensures var t := Apply(s, op);
      && t.pointCount == s.pointCount + (if op.InitThenAdd? then 2 else 1)
      && t.pointCount in t.history
      && var e := t.history[t.pointCount];
         && e.user == op.user && e.busiName == (if op.InitPoints? then "INIT" else op.busiName)
         && e.opType == (if op.InitPoints? then INIT else if op.AddPoints? || op.InitThenAdd? then ADD else DEDUCT)
  {
  }

  /** The entry fits its kind: an initial 20, or a deduction of what its business costs. */
  predicate Priced(e: PointHistory) {
    match e.opType
    case INIT => e.amount == 20 && e.busiName == "INIT"
    case DEDUCT => Costs(e.busiName, e.amount)
    case ADD => true
  }

  /** Deducting is private to the launcher: calls only reach it by spending on a business. */
  predicate Callable(op: Op) {
    !op.DeductPoints?
  }

  lemma ApplyPriced(s: Points, op: Op)
    requires Callable(op) && forall n :: n in s.history ==> Priced(s.history[n])
    ensures forall n :: n in Apply(s, op).history ==> Priced(Apply(s, op).history[n])
  {
  }

  /** Over every interleaving of calls, every deduction on record is a known business at its price. */
  lemma {:induction false} RunPriced(s: Points, ops: seq<Op>)
    requires (forall n :: n in s.history ==> Priced(s.history[n])) && forall n :: 0 <= n < |ops| ==> Callable(ops[n])
    ensures forall n :: n in Run(s, ops).history ==> Priced(Run(s, ops).history[n])
    decreases |ops|
  {
    if ops != [] {
      ApplyPriced(s, ops[0]);
      RunPriced(Apply(s, ops[0]), ops[1..]);
    }
  }

  /** Whose profile a segment may touch. */
  predicate Touches(op: Op, user: Principal) {
    !op.CountPoint? && op.user == user
  }

  lemma ApplyOthers(s: Points, op: Op, user: Principal)
    requires !Touches(op, user)
    ensures user in Apply(s, op).profiles <==> user in s.profiles
    ensures user in s.profiles ==> Apply(s, op).profiles[user] == s.profiles[user]
  {
  }

  /** Only a first top-up gives a user points; until then what is added is kept as a reward, and
      a reward once kept stays on record. */
  lemma ProfileMoves(s: Points, op: Op, user: Principal)
    requires user in s.profiles
    ensures user in Apply(s, op).profiles
    ensures var p, q := s.profiles[user], Apply(s, op).profiles[user];
      && (q.points.Some? <==> p.points.Some? || ((op.InitPoints? || op.InitThenAdd?) && op.user == user))
      && q.preReward.GetOr(0) == p.preReward.GetOr(0)
           + (if op.AddPoints? && op.user == user && p.points.None? then op.amount else 0)
  {
  }

  /** Editing a profile moves no points: it fills in what is missing, and creates the profile
      only at its end. */
  lemma EditsMoveNothing(s: Points, op: Op)
    requires Consistent(s) && (op.EditOpen? || op.EditClose?)
    ensures var t := Apply(s, op);
      && t.history == s.history && t.pointCount == s.pointCount
      && (op.user == Anonymous ==> t == s)
      && (op.user in s.profiles ==>
            && op.user in t.profiles
            && var p, q := s.profiles[op.user], t.profiles[op.user];
               q.points == p.points && q.allSpend.GetOr(0) == p.allSpend.GetOr(0)
               && q.preReward.GetOr(0) == p.preReward.GetOr(0))
      && (op.EditClose? && op.user != Anonymous ==>
            op.user in t.profiles && t.profiles[op.user].allSpend.Some? && t.profiles[op.user].preReward.Some?
            && (op.user !in s.profiles ==> t.profiles[op.user] == Profile(None, Some(0), Some(0))))
      && (op.EditOpen? ==> t.profiles.Keys == s.profiles.Keys)
  {
  }
}
