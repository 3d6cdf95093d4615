/** The DIP20 share ledger on values: what each entry point does to balances,
    allowances and supply, and what every run of them keeps. */
module TokenSpec {
  import opened Checked
  import Arith
  import FixedPoint
  import opened Principals

  type Balances = map<Principal, nat>
  type Allowances = map<Principal, Balances>

  /** The fields no entry point changes. */
  datatype Config = Config(
    owner: Principal, feeTo: Principal, feeRate: nat, burnRate: nat,
    burnOn: bool, mintOn: bool, flatFee: bool, flatBurnFee: bool)

  datatype Ledger = Ledger(balances: Balances, allowances: Allowances, totalSupply: nat)

  datatype TokenError = InsufficientBalance | InsufficientAllowance | MintNotOn | NotOwner | Trapped

  type Reply = Result<(), TokenError>

  // ----- maps that store no zero

  function Get(m: Balances, id: Principal): nat {
    if id in m then m[id] else 0
  }

  function Put(m: Balances, id: Principal, value: nat): Balances {
    if value != 0 then m[id := value] else m - {id}
  }

  ghost predicate NoZero(m: Balances) {
    forall id :: id in m ==> m[id] > 0
  }

  ghost function Total(m: Balances): nat {
    if m == map[] then 0
    else
      var id :| id in m;
      m[id] + Total(m - {id})
  }

  lemma TotalUnfold(m: Balances) returns (id: Principal)
    requires m != map[]
    ensures id in m && Total(m) == m[id] + Total(m - {id})
  {
    id :| id in m && Total(m) == m[id] + Total(m - {id});
  }

  lemma {:induction false} TotalSplit(m: Balances, id: Principal)
    ensures Total(m) == Get(m, id) + Total(m - {id})
    decreases |m|
  {
    if id !in m {
      assert m - {id} == m;
    } else {
      var other := TotalUnfold(m);
      if other != id {
        var without, both := m - {other}, m - {other} - {id};
        assert both == m - {id} - {other};
        TotalSplit(without, id);
        TotalSplit(m - {id}, other);
        assert Get(without, id) == m[id] && Get(m - {id}, other) == m[other];
      }
    }
  }

  lemma TotalPut(m: Balances, id: Principal, value: nat)
    ensures Total(Put(m, id, value)) + Get(m, id) == Total(m) + value
  {
    TotalSplit(m, id);
    TotalSplit(Put(m, id, value), id);
    assert Put(m, id, value) - {id} == m - {id};
  }

  // ----- balances

  /** _transfer: debit, then credit what the receiver holds by then. */
  function Move(m: Balances, from: Principal, to: Principal, value: nat): Balances
    requires value <= Get(m, from)
  {
    var debited := Put(m, from, Get(m, from) - value);
    Credit(debited, to, value)
  }

  function Credit(m: Balances, to: Principal, value: nat): Balances {
    if Get(m, to) + value != 0 then m[to := Get(m, to) + value] else m
  }

  function CalBurn(c: Config, amount: nat): nat {
    if c.flatBurnFee then c.burnRate else FixedPoint.MulFloor(c.burnRate, amount)
  }

  function CalFee(c: Config, amount: nat): nat {
    var fee := if c.flatFee then c.feeRate else FixedPoint.MulFloor(c.feeRate, amount);
    if c.burnOn then fee + CalBurn(c, amount) else fee
  }

  /** The part of the fee that goes to the management canister. */
  function BurnPart(c: Config, amount: nat): (burn: nat)
    ensures burn <= CalFee(c, amount)
  {
    if c.burnOn then CalBurn(c, amount) else 0
  }

  function MoveIfAny(m: Balances, from: Principal, to: Principal, value: nat): Balances
    requires value <= Get(m, from)
  {
    if value > 0 then Move(m, from, to, value) else m
  }

  lemma CreditSound(m: Balances, to: Principal, value: nat)
    ensures Total(Credit(m, to, value)) == Total(m) + value
    ensures NoZero(m) ==> NoZero(Credit(m, to, value))
  {
    TotalPut(m, to, Get(m, to) + value);
    TotalSplit(m, to);
    assert to !in m ==> m - {to} == m;
  }

  lemma MoveSound(m: Balances, from: Principal, to: Principal, value: nat)
    requires value <= Get(m, from)
    ensures Total(Move(m, from, to, value)) == Total(m)
    ensures NoZero(m) ==> NoZero(Move(m, from, to, value))
  {
    TotalPut(m, from, Get(m, from) - value);
    CreditSound(Put(m, from, Get(m, from) - value), to, value);
  }

  lemma MoveAt(m: Balances, from: Principal, to: Principal, value: nat, id: Principal)
    requires value <= Get(m, from)
    ensures Get(Move(m, from, to, value), id)
         == Get(m, id) + (if id == to then value else 0) - (if id == from then value else 0)
  {
  }

  /** Neither part of the fee exceeds what the payer holds when it is charged. */
  predicate CanCharge(m: Balances, user: Principal, burn: nat, rest: nat) {
    burn <= Get(m, user) && rest <= Get(MoveIfAny(m, user, ManagementCanister, burn), user)
  }

  /** _charge_fee: the burn first, the rest of the fee next. */
  function ChargeFee(m: Balances, user: Principal, feeTo: Principal, burn: nat, rest: nat): (n: Balances)
    requires CanCharge(m, user, burn, rest)
    ensures Get(m, user) <= Get(n, user) + burn + rest
  {
    MoveIfAny(MoveIfAny(m, user, ManagementCanister, burn), user, feeTo, rest)
  }

  function Pay(c: Config, m: Balances, from: Principal, to: Principal, value: nat): Balances
    requires value + CalFee(c, value) <= Get(m, from)
  {
    var burn := BurnPart(c, value);
    Move(ChargeFee(m, from, c.feeTo, burn, CalFee(c, value) - burn), from, to, value)
  }

  /** What a fee setting comes to on an amount: itself if flat, else that rate of it, rounded down. */
  predicate IsShare(flat: bool, rate: nat, amount: nat, share: nat) {
    if flat then share == rate
    else share * FixedPoint.ONE <= rate * amount < (share + 1) * FixedPoint.ONE
  }

  /** The two charges on an amount: one for the fee account, and the burn while it is switched on. */
  predicate Shares(c: Config, amount: nat, fee: nat, burn: nat) {
    IsShare(c.flatFee, c.feeRate, amount, fee) && IsBurn(c, amount, burn)
  }

  predicate IsBurn(c: Config, amount: nat, burn: nat) {
    if c.burnOn then IsShare(c.flatBurnFee, c.burnRate, amount, burn) else burn == 0
  }

  function FeePart(c: Config, amount: nat): nat {
    CalFee(c, amount) - BurnPart(c, amount)
  }

  lemma ShareUnique(flat: bool, rate: nat, amount: nat, share: nat)
    ensures IsShare(flat, rate, amount, share) <==>
            share == if flat then rate else FixedPoint.MulFloor(rate, amount)
  {
    var floor := FixedPoint.MulFloor(rate, amount);
    Arith.DivBounds(rate * amount, FixedPoint.ONE);
    if !flat && IsShare(flat, rate, amount, share) {
      Arith.DivUnique(rate * amount, FixedPoint.ONE, share);
    }
  }

  lemma BurnUnique(c: Config, amount: nat, burn: nat)
    ensures IsBurn(c, amount, burn) <==> burn == BurnPart(c, amount)
  {
    ShareUnique(c.flatBurnFee, c.burnRate, amount, burn);
  }

  /** There is one such pair for every amount, and the ledger's fee is their sum. */
  lemma SharesUnique(c: Config, amount: nat, fee: nat, burn: nat)
    ensures Shares(c, amount, fee, burn) <==>
            burn == BurnPart(c, amount) && fee == FeePart(c, amount)
  {
    ShareUnique(c.flatFee, c.feeRate, amount, fee);
    BurnUnique(c, amount, burn);
  }

  /** The net change of one account in a payment with the given charges. */
  function Change(c: Config, id: Principal, from: Principal, to: Principal, value: nat, fee: nat, burn: nat): int {
    (if id == to then value else 0)
    + (if id == c.feeTo then fee else 0)
    + (if id == ManagementCanister then burn else 0)
    - (if id == from then value + fee + burn else 0)
  }

  lemma PayRounded(c: Config, m: Balances, from: Principal, to: Principal, value: nat, id: Principal)
    requires value + CalFee(c, value) <= Get(m, from)
    ensures Get(Pay(c, m, from, to, value), id)
         == Get(m, id) + Change(c, id, from, to, value, FeePart(c, value), BurnPart(c, value))
  {
    PayPartsEffect(m, from, c.feeTo, to, BurnPart(c, value), FeePart(c, value), value, id);
  }

  /** A payment credits the fee account and the management canister with the two charges the
      configuration sets, and changes every account by its net amount, under every aliasing. */
  lemma PayEffect(c: Config, m: Balances, from: Principal, to: Principal, value: nat,
                  fee: nat, burn: nat, id: Principal)
    requires Shares(c, value, fee, burn) && value + fee + burn <= Get(m, from)
    ensures CalFee(c, value) == fee + burn
    ensures Get(Pay(c, m, from, to, value), id) == Get(m, id) + Change(c, id, from, to, value, fee, burn)
  {
    SharesUnique(c, value, fee, burn);
    PayRounded(c, m, from, to, value, id);
  }

  /** The accounts of a payment, for whatever charges the configuration sets. */
  ghost predicate PaidOut(c: Config, m: Balances, n: Balances, from: Principal, to: Principal, value: nat) {
    forall id, fee: nat, burn: nat :: Shares(c, value, fee, burn) ==>
      Get(n, id) == Get(m, id) + Change(c, id, from, to, value, fee, burn)
  }

  lemma PayEffects(c: Config, m: Balances, from: Principal, to: Principal, value: nat)
    requires value + CalFee(c, value) <= Get(m, from)
    ensures PaidOut(c, m, Pay(c, m, from, to, value), from, to, value)
  {
    forall id, fee: nat, burn: nat | Shares(c, value, fee, burn)
      ensures Get(Pay(c, m, from, to, value), id) == Get(m, id) + Change(c, id, from, to, value, fee, burn)
    {
      SharesUnique(c, value, fee, burn);
      PayEffect(c, m, from, to, value, fee, burn, id);
    }
  }

  lemma PayPartsEffect(m: Balances, from: Principal, feeTo: Principal, to: Principal,
                       burn: nat, rest: nat, value: nat, id: Principal)
    requires value + burn + rest <= Get(m, from)
    ensures Get(Move(ChargeFee(m, from, feeTo, burn, rest), from, to, value), id)
         == Get(m, id) + (if id == to then value else 0) + (if id == feeTo then rest else 0)
            + (if id == ManagementCanister then burn else 0) - (if id == from then value + (burn + rest) else 0)
  {
    var burned := MoveIfAny(m, from, ManagementCanister, burn);
    MoveAt(m, from, ManagementCanister, burn, id);
    MoveAt(m, from, ManagementCanister, burn, from);
    MoveAt(burned, from, feeTo, rest, id);
    MoveAt(ChargeFee(m, from, feeTo, burn, rest), from, to, value, id);
  }

  lemma PaySound(c: Config, m: Balances, from: Principal, to: Principal, value: nat)
    requires value + CalFee(c, value) <= Get(m, from)
    ensures Total(Pay(c, m, from, to, value)) == Total(m)
    ensures NoZero(m) ==> NoZero(Pay(c, m, from, to, value))
  {
    var burn := BurnPart(c, value);
    PayPartsSound(m, from, c.feeTo, to, burn, CalFee(c, value) - burn, value);
  }

  lemma PayPartsSound(m: Balances, from: Principal, feeTo: Principal, to: Principal, burn: nat, rest: nat, value: nat)
    requires value + burn + rest <= Get(m, from)
    ensures var n := Move(ChargeFee(m, from, feeTo, burn, rest), from, to, value);
      Total(n) == Total(m) && (NoZero(m) ==> NoZero(n))
  {
    var burned := MoveIfAny(m, from, ManagementCanister, burn);
    if burn > 0 {
      MoveSound(m, from, ManagementCanister, burn);
    }
    if rest > 0 {
      MoveSound(burned, from, feeTo, rest);
    }
    MoveSound(ChargeFee(m, from, feeTo, burn, rest), from, to, value);
  }

  // ----- allowances

  function Allowance(a: Allowances, owner: Principal, spender: Principal): nat {
    if owner in a then Get(a[owner], spender) else 0
  }

  /** Store an allowance, dropping zero entries and empty inner maps. */
  function PutAllowance(a: Allowances, owner: Principal, spender: Principal, value: nat): Allowances {
    var inner := Put(if owner in a then a[owner] else map[], spender, value);
    if inner == map[] then a - {owner} else a[owner := inner]
  }

  ghost predicate Tidy(a: Allowances) {
    forall owner :: owner in a ==> a[owner] != map[] && NoZero(a[owner])
  }

  /** The same by cases, as _approve and the end of transfer_from have it. */
  lemma PutAllowanceCases(a: Allowances, owner: Principal, spender: Principal, value: nat)
    ensures owner in a && value != 0 ==>
            var inner: Balances := a[owner][spender := value];
            PutAllowance(a, owner, spender, value) == a[owner := inner]
    ensures owner in a && value == 0 ==>
            PutAllowance(a, owner, spender, value)
            == if |a[owner] - {spender}| == 0 then a - {owner} else a[owner := a[owner] - {spender}]
    ensures owner !in a && value != 0 ==>
            var inner: Balances := map[spender := value];
            PutAllowance(a, owner, spender, value) == a[owner := inner]
    ensures owner !in a && value == 0 ==> PutAllowance(a, owner, spender, value) == a
  {
    var inner := Put(if owner in a then a[owner] else map[], spender, value);
    if value != 0 {
      assert spender in inner;
    } else if owner in a {
      assert inner == a[owner] - {spender};
    } else {
      assert inner == map[];
      assert a - {owner} == a;
    }
  }

  lemma PutAllowanceEffect(a: Allowances, owner: Principal, spender: Principal, value: nat)
    requires Tidy(a)
    ensures Tidy(PutAllowance(a, owner, spender, value))
    ensures forall o, s :: Allowance(PutAllowance(a, owner, spender, value), o, s)
                        == if o == owner && s == spender then value else Allowance(a, o, s)
  {
    var inner := Put(if owner in a then a[owner] else map[], spender, value);
    forall o, s
      ensures Allowance(PutAllowance(a, owner, spender, value), o, s)
           == if o == owner && s == spender then value else Allowance(a, o, s)
    {
      if o == owner {
        assert Get(inner, s) == if s == spender then value else Allowance(a, o, s);
      }
    }
  }

  // ----- entry points

  datatype Op =
    | Mint(caller: Principal, to: Principal, value: nat)
    | Burn(from: Principal, value: nat)
    | Approve(caller: Principal, spender: Principal, value: nat)
    | Transfer(caller: Principal, to: Principal, value: nat)
    | TransferFrom(caller: Principal, from: Principal, to: Principal, value: nat)

  function Answer(c: Config, l: Ledger, op: Op): Reply {
    match op
    case Mint(caller, _, _) =>
      if !c.mintOn then Failure(MintNotOn)
      else if caller != c.owner then Failure(NotOwner)
      else Success(())
    case Burn(from, value) =>
      if Get(l.balances, from) < value || l.totalSupply < value then Failure(Trapped) else Success(())
    case Approve(_, _, _) => Success(())
    case Transfer(caller, _, value) =>
      if Get(l.balances, caller) < value + CalFee(c, value) then Failure(InsufficientBalance) else Success(())
    case TransferFrom(caller, from, _, value) =>
      if Allowance(l.allowances, from, caller) < value + CalFee(c, value) then Failure(InsufficientAllowance)
      else if Get(l.balances, from) < value + CalFee(c, value) then Failure(InsufficientBalance)
      else if from !in l.allowances || caller !in l.allowances[from] then Failure(Trapped)
      else Success(())
  }

  function Apply(c: Config, l: Ledger, op: Op): Ledger {
    if Answer(c, l, op).Failure? then l
    else
      match op
      case Mint(_, to, value) =>
        l.(balances := Credit(l.balances, to, value), totalSupply := l.totalSupply + value)
      case Burn(from, value) =>
        l.(balances := Put(l.balances, from, Get(l.balances, from) - value), totalSupply := l.totalSupply - value)
      case Approve(caller, spender, value) =>
        l.(allowances := PutAllowance(l.allowances, caller, spender, value))
      case Transfer(caller, to, value) =>
        l.(balances := Pay(c, l.balances, caller, to, value))
      case TransferFrom(caller, from, to, value) =>
        l.(balances := Pay(c, l.balances, from, to, value),
           allowances := PutAllowance(l.allowances, from, caller,
                           Allowance(l.allowances, from, caller) - (value + CalFee(c, value))))
  }

  function Run(c: Config, l: Ledger, ops: seq<Op>): Ledger
    decreases |ops|
  {
    if ops == [] then l
    else
      var n := |ops| - 1;
      Apply(c, Run(c, l, ops[..n]), ops[n])
  }

  /** Supply is the sum of balances, and nothing stored is zero or empty. */
  ghost predicate Sound(l: Ledger) {
    Total(l.balances) == l.totalSupply && NoZero(l.balances) && Tidy(l.allowances)
  }

  lemma ApplySound(c: Config, l: Ledger, op: Op)
    requires Sound(l)
    ensures Sound(Apply(c, l, op))
  {
    if Answer(c, l, op).Success? {
      match op
      case Mint(_, to, value) => CreditSound(l.balances, to, value);
      case Burn(from, value) => BurnSound(l.balances, from, value);
      case Approve(caller, spender, value) => PutAllowanceEffect(l.allowances, caller, spender, value);
      case Transfer(caller, to, value) => PaySound(c, l.balances, caller, to, value);
      case TransferFrom(_, _, _, _) => TransferFromSound(c, l, op);
    }
  }

  lemma BurnSound(m: Balances, from: Principal, value: nat)
    requires value <= Get(m, from)
    ensures Total(Put(m, from, Get(m, from) - value)) == Total(m) - value
    ensures NoZero(m) ==> NoZero(Put(m, from, Get(m, from) - value))
  {
    TotalPut(m, from, Get(m, from) - value);
  }

  lemma TransferFromSound(c: Config, l: Ledger, op: Op)
    requires Sound(l) && op.TransferFrom? && Answer(c, l, op).Success?
    ensures Sound(Apply(c, l, op))
  {
    PaySound(c, l.balances, op.from, op.to, op.value);
    PutAllowanceEffect(l.allowances, op.from, op.caller,
                       Allowance(l.allowances, op.from, op.caller) - (op.value + CalFee(c, op.value)));
  }

  /** Conservation over all runs. */
  lemma {:induction false} RunSound(c: Config, l: Ledger, ops: seq<Op>)
    requires Sound(l)
    ensures Sound(Run(c, l, ops))
    decreases |ops|
  {
    if ops != [] {
      var n := |ops| - 1;
      RunSound(c, l, ops[..n]);
      ApplySound(c, Run(c, l, ops[..n]), ops[n]);
    }
  }

  /** In a sound ledger only two calls trap: burning more than the account holds, and
      a transfer_from that moves and costs nothing with no allowance on record. */
  lemma TrapsExactly(c: Config, l: Ledger, op: Op)
    requires Sound(l)
    ensures Answer(c, l, op) == Failure(Trapped) <==>
            match op
            case Burn(from, value) => Get(l.balances, from) < value
            case TransferFrom(caller, from, _, value) =>
              value + CalFee(c, value) == 0 && Allowance(l.allowances, from, caller) == 0
            case _ => false
  {
    match op
    case Burn(from, value) => TotalSplit(l.balances, from);
    case _ =>
  }

  // ----- allowance accounting

  /** The amount owner last approved for spender; before any approval, what was there at the start. */
  function LastApproved(c: Config, l: Ledger, ops: seq<Op>, owner: Principal, spender: Principal): nat
    decreases |ops|
  {
    if ops == [] then Allowance(l.allowances, owner, spender)
    else
      var n := |ops| - 1;
      match ops[n]
      case Approve(caller, sp, value) =>
        if caller == owner && sp == spender then value
        else LastApproved(c, l, ops[..n], owner, spender)
      case _ => LastApproved(c, l, ops[..n], owner, spender)
  }

  /** What spender's successful transfer_from calls moved and cost since then. */
  function SpentSince(c: Config, l: Ledger, ops: seq<Op>, owner: Principal, spender: Principal): nat
    decreases |ops|
  {
    if ops == [] then 0
    else
      var n := |ops| - 1;
      var before := SpentSince(c, l, ops[..n], owner, spender);
      match ops[n]
      case Approve(caller, sp, value) =>
        if caller == owner && sp == spender then 0 else before
      case TransferFrom(caller, from, _, value) =>
        if caller == spender && from == owner && Answer(c, Run(c, l, ops[..n]), ops[n]).Success?
        then before + value + CalFee(c, value)
        else before
      case _ => before
  }

  /** Only approve and a successful transfer_from touch an allowance, each its own. */
  lemma ApplyAllowance(c: Config, l: Ledger, op: Op, owner: Principal, spender: Principal)
    requires Sound(l)
    ensures Allowance(Apply(c, l, op).allowances, owner, spender)
         == match op
            case Approve(caller, sp, value) =>
              if caller == owner && sp == spender then value else Allowance(l.allowances, owner, spender)
            case TransferFrom(caller, from, _, value) =>
              if caller == spender && from == owner && Answer(c, l, op).Success?
              then Allowance(l.allowances, owner, spender) - (value + CalFee(c, value))
              else Allowance(l.allowances, owner, spender)
            case _ => Allowance(l.allowances, owner, spender)
  {
    match op
    case Approve(caller, sp, value) => PutAllowanceEffect(l.allowances, caller, sp, value);
    case TransferFrom(_, _, _, _) =>
      if Answer(c, l, op).Success? {
        SpendEffect(c, l, op, owner, spender);
      }
    case _ =>
  }

  lemma SpendEffect(c: Config, l: Ledger, op: Op, owner: Principal, spender: Principal)
    requires Sound(l) && op.TransferFrom? && Answer(c, l, op).Success?
    ensures Allowance(Apply(c, l, op).allowances, owner, spender) + (
              if op.caller == spender && op.from == owner then op.value + CalFee(c, op.value) else 0)
         == Allowance(l.allowances, owner, spender)
  {
    PutAllowanceEffect(l.allowances, op.from, op.caller,
                       Allowance(l.allowances, op.from, op.caller) - (op.value + CalFee(c, op.value)));
  }

  /** For every owner and spender, after every run: what is left of the allowance plus
      what was spent since the last approval is the amount approved. */
  lemma {:induction false} AllowanceAccounting(c: Config, l: Ledger, ops: seq<Op>, owner: Principal, spender: Principal)
    requires Sound(l)
    ensures Allowance(Run(c, l, ops).allowances, owner, spender) + SpentSince(c, l, ops, owner, spender)
         == LastApproved(c, l, ops, owner, spender)
    decreases |ops|
  {
    if ops != [] {
      var n := |ops| - 1;
      AllowanceAccounting(c, l, ops[..n], owner, spender);
      RunSound(c, l, ops[..n]);
      ApplyAllowance(c, Run(c, l, ops[..n]), ops[n], owner, spender);
    }
  }

  // ----- what each entry point is for

  /** Who may do what and why not, in terms of the configuration, what is held and the two charges. */
  lemma AnswersExactly(c: Config, l: Ledger, op: Op, fee: nat, burn: nat)
    requires Sound(l)
    requires (op.Transfer? || op.TransferFrom?) ==> Shares(c, op.value, fee, burn)
    ensures Answer(c, l, op).Success? <==>
            match op
            case Mint(caller, _, _) => c.mintOn && caller == c.owner
            case Burn(from, value) => value <= Get(l.balances, from)
            case Approve(_, _, _) => true
            case Transfer(caller, _, value) => value + fee + burn <= Get(l.balances, caller)
            case TransferFrom(caller, from, _, value) =>
              && value + fee + burn <= Get(l.balances, from)
              && value + fee + burn <= Allowance(l.allowances, from, caller)
              && 0 < Allowance(l.allowances, from, caller)
    ensures Answer(c, l, op) == Failure(MintNotOn) <==> op.Mint? && !c.mintOn
    ensures Answer(c, l, op) == Failure(NotOwner) <==> op.Mint? && c.mintOn && op.caller != c.owner
    ensures Answer(c, l, op) == Failure(InsufficientAllowance) <==>
            op.TransferFrom? && Allowance(l.allowances, op.from, op.caller) < op.value + fee + burn
    ensures Answer(c, l, op) == Failure(InsufficientBalance) <==>
            || (op.Transfer? && Get(l.balances, op.caller) < op.value + fee + burn)
            || (op.TransferFrom? && Get(l.balances, op.from) < op.value + fee + burn
                                    <= Allowance(l.allowances, op.from, op.caller))
  {
    TrapsExactly(c, l, op);
    match op
    case Burn(from, value) => TotalSplit(l.balances, from);
    case Transfer(_, _, value) => SharesUnique(c, value, fee, burn);
    case TransferFrom(caller, from, _, value) => SharesUnique(c, value, fee, burn);
    case _ =>
  }

  /** What each call that succeeds does to every account. */
  lemma ApplyBalance(c: Config, l: Ledger, op: Op, fee: nat, burn: nat, id: Principal)
    requires Answer(c, l, op).Success?
    requires (op.Transfer? || op.TransferFrom?) ==> Shares(c, op.value, fee, burn)
    ensures Get(Apply(c, l, op).balances, id) == Get(l.balances, id) + (
              match op
              case Mint(_, to, value) => if id == to then value else 0
              case Burn(from, value) => if id == from then -(value as int) else 0
              case Approve(_, _, _) => 0
              case Transfer(caller, to, value) => Change(c, id, caller, to, value, fee, burn)
              case TransferFrom(_, from, to, value) => Change(c, id, from, to, value, fee, burn))
  {
    match op
    case Transfer(caller, to, value) =>
      SharesUnique(c, value, fee, burn);
      PayEffect(c, l.balances, caller, to, value, fee, burn, id);
    case TransferFrom(_, from, to, value) =>
      SharesUnique(c, value, fee, burn);
      PayEffect(c, l.balances, from, to, value, fee, burn, id);
    case _ =>
  }

  /** What the owner minted over a run, while minting is on. */
  function Minted(c: Config, ops: seq<Op>): nat {
    if ops == [] then 0
    else
      var n := |ops| - 1;
      match ops[n]
      case Mint(caller, _, value) => Minted(c, ops[..n]) + if c.mintOn && caller == c.owner then value else 0
      case _ => Minted(c, ops[..n])
  }

  /** What was burned over a run, each time by an account that held it. */
  function Burned(c: Config, l: Ledger, ops: seq<Op>): nat
    decreases |ops|
  {
    if ops == [] then 0
    else
      var n := |ops| - 1;
      match ops[n]
      case Burn(from, value) =>
        Burned(c, l, ops[..n]) + if value <= Get(Run(c, l, ops[..n]).balances, from) then value else 0
      case _ => Burned(c, l, ops[..n])
  }

  /** Over every run the supply changes by what the owner minted and what holders burned alone. */
  lemma {:induction false} SupplyAccounting(c: Config, l: Ledger, ops: seq<Op>)
    requires Sound(l)
    ensures Run(c, l, ops).totalSupply + Burned(c, l, ops) == l.totalSupply + Minted(c, ops)
    decreases |ops|
  {
    if ops != [] {
      var n := |ops| - 1;
      SupplyAccounting(c, l, ops[..n]);
      RunSound(c, l, ops[..n]);
      if ops[n].Burn? {
        TotalSplit(Run(c, l, ops[..n]).balances, ops[n].from);
      }
    }
  }
}
