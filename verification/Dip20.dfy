/** The DIP20 token as the source updates it: balances, allowances and supply are changed
    in place, entry point by entry point, and every method is proved against TokenSpec. */
module Dip20 {
  import opened Checked
  import FixedPoint
  import opened Principals
  import TokenSpec

  class DIP20 {
    const owner: Principal
    const feeTo: Principal
    const feeRate: nat
    const burnRate: nat
    const burnOn: bool
    const mintOn: bool
    const flatFee: bool
    const flatBurnFee: bool
    var totalSupply: nat
    var balances: TokenSpec.Balances
    var allowances: TokenSpec.Allowances

    function Config(): TokenSpec.Config {
      TokenSpec.Config(owner, feeTo, feeRate, burnRate, burnOn, mintOn, flatFee, flatBurnFee)
    }

    function Ledger(): TokenSpec.Ledger
      reads this
    {
      TokenSpec.Ledger(balances, allowances, totalSupply)
    }

    constructor (c: TokenSpec.Config)
      ensures Config() == c && Ledger() == TokenSpec.Ledger(map[], map[], 0)
      ensures TokenSpec.Sound(Ledger())
    {
      owner, feeTo, feeRate, burnRate := c.owner, c.feeTo, c.feeRate, c.burnRate;
      burnOn, mintOn, flatFee, flatBurnFee := c.burnOn, c.mintOn, c.flatFee, c.flatBurnFee;
      totalSupply, balances, allowances := 0, map[], map[];
    }

    function BalanceOf(id: Principal): nat
      reads this
    {
      TokenSpec.Get(balances, id)
    }

    /** _transfer; a balance below the value traps, which undoes the message. */
    method MoveBalance(from: Principal, to: Principal, value: nat) returns (ok: bool)
      modifies this`balances
      ensures ok <==> value <= old(BalanceOf(from))
      ensures balances == if ok then TokenSpec.Move(old(balances), from, to, value) else old(balances)
    {
      if BalanceOf(from) < value { return false; }
      var fromBalanceNew: nat := BalanceOf(from) - value;
      if fromBalanceNew != 0 {
        balances := balances[from := fromBalanceNew];
      } else {
        balances := balances - {from};
      }
      var toBalanceNew := BalanceOf(to) + value;
      if toBalanceNew != 0 {
        balances := balances[to := toBalanceNew];
      }
      return true;
    }

    function CalBurn(amount: nat): nat {
      if flatBurnFee then burnRate else FixedPoint.MulFloor(burnRate, amount)
    }

    function CalFee(amount: nat): nat {
      var fee := if flatFee then feeRate else FixedPoint.MulFloor(feeRate, amount);
      if burnOn then fee + CalBurn(amount) else fee
    }

    /** _charge_fee, for any fee: a fee below its burn part, or a part the user does not hold,
        traps, which undoes the message. */
    method ChargeFee(user: Principal, receiver: Principal, fee: nat, amount: nat) returns (ok: bool)
      modifies this`balances
      ensures forall burn: nat :: TokenSpec.IsBurn(Config(), amount, burn) ==>
                if burn <= fee && TokenSpec.CanCharge(old(balances), user, burn, fee - burn)
                then ok && balances == TokenSpec.ChargeFee(old(balances), user, receiver, burn, fee - burn)
                else !ok && balances == old(balances)
    {
      var before := balances;
      forall burn: nat
        ensures TokenSpec.IsBurn(Config(), amount, burn) <==> burn == if burnOn then CalBurn(amount) else 0
      {
        TokenSpec.BurnUnique(Config(), amount, burn);
      }
      var feeToUser := fee;
      if burnOn {
        var burnFee := CalBurn(amount);
        if burnFee > 0 {
          ok := MoveBalance(user, ManagementCanister, burnFee);
          if !ok { return false; }
          if fee < burnFee {
            balances := before;
            return false;
          }
          feeToUser := fee - burnFee;
        }
      }
      if feeToUser > 0 {
        ok := MoveBalance(user, receiver, feeToUser);
        if !ok {
          balances := before;
          return false;
        }
      }
      return true;
    }

    /** The two transfers that transfer and transfer_from share: neither of them traps. */
    method PayOut(from: Principal, to: Principal, value: nat, fee: nat)
      requires fee == TokenSpec.CalFee(Config(), value) && value + fee <= BalanceOf(from)
      modifies this`balances
      ensures balances == TokenSpec.Pay(Config(), old(balances), from, to, value)
      ensures TokenSpec.PaidOut(Config(), old(balances), balances, from, to, value)
    {
      TokenSpec.PayEffects(Config(), balances, from, to, value);
      TokenSpec.BurnUnique(Config(), value, TokenSpec.BurnPart(Config(), value));
      var charged := ChargeFee(from, feeTo, fee, value);
      assert charged;
      var moved := MoveBalance(from, to, value);
      assert moved;
    }

    method Mint(caller: Principal, to: Principal, value: nat) returns (r: TokenSpec.Reply)
      modifies this`balances, this`totalSupply
      ensures r == TokenSpec.Answer(Config(), old(Ledger()), TokenSpec.Mint(caller, to, value))
      ensures Ledger() == TokenSpec.Apply(Config(), old(Ledger()), TokenSpec.Mint(caller, to, value))
    {
      if !mintOn { return Failure(TokenSpec.MintNotOn); }
      if caller != owner { return Failure(TokenSpec.NotOwner); }
      totalSupply := totalSupply + value;
      var toBalanceNew := BalanceOf(to) + value;
      if toBalanceNew > 0 {
        balances := balances[to := toBalanceNew];
      }
      return Success(());
    }

    /** _burn; an underflow traps and changes nothing. */
    method Burn(from: Principal, value: nat) returns (r: TokenSpec.Reply)
      modifies this`balances, this`totalSupply
      ensures r == TokenSpec.Answer(Config(), old(Ledger()), TokenSpec.Burn(from, value))
      ensures Ledger() == TokenSpec.Apply(Config(), old(Ledger()), TokenSpec.Burn(from, value))
    {
      if BalanceOf(from) < value || totalSupply < value { return Failure(TokenSpec.Trapped); }
      var fromBalanceNew: nat := BalanceOf(from) - value;
      if fromBalanceNew != 0 {
        balances := balances[from := fromBalanceNew];
      } else {
        balances := balances - {from};
      }
      totalSupply := totalSupply - value;
      return Success(());
    }

    /** _approve. */
    method SetAllowance(owner: Principal, spender: Principal, value: nat)
      modifies this`allowances
      ensures allowances == TokenSpec.PutAllowance(old(allowances), owner, spender, value)
    {
      TokenSpec.PutAllowanceCases(allowances, owner, spender, value);
      if owner in allowances {
        var temp := allowances[owner];
        if value != 0 {
          temp := temp[spender := value];
          allowances := allowances[owner := temp];
        } else {
          temp := temp - {spender};
          if |temp| == 0 {
            allowances := allowances - {owner};
          } else {
            allowances := allowances[owner := temp];
          }
        }
      } else if value != 0 {
        var single: TokenSpec.Balances := map[];
        single := single[spender := value];
        allowances := allowances[owner := single];
      }
    }

    method Approve(caller: Principal, spender: Principal, value: nat)
      modifies this`allowances
      ensures Ledger() == TokenSpec.Apply(Config(), old(Ledger()), TokenSpec.Approve(caller, spender, value))
    {
      SetAllowance(caller, spender, value);
    }

    /** Success debits the caller value + fee, and every account changes by its net amount. */
    method Transfer(caller: Principal, to: Principal, value: nat) returns (r: TokenSpec.Reply)
      modifies this`balances
      ensures r == TokenSpec.Answer(Config(), old(Ledger()), TokenSpec.Transfer(caller, to, value))
      ensures Ledger() == TokenSpec.Apply(Config(), old(Ledger()), TokenSpec.Transfer(caller, to, value))
      ensures r.Success? ==> TokenSpec.PaidOut(Config(), old(balances), balances, caller, to, value)
    {
      var fee := CalFee(value);
      assert fee == TokenSpec.CalFee(Config(), value);
      if BalanceOf(caller) < value + fee { return Failure(TokenSpec.InsufficientBalance); }
      PayOut(caller, to, value, fee);
      return Success(());
    }

    method TransferFrom(caller: Principal, from: Principal, to: Principal, value: nat) returns (r: TokenSpec.Reply)
      modifies this`balances, this`allowances
      ensures r == TokenSpec.Answer(Config(), old(Ledger()), TokenSpec.TransferFrom(caller, from, to, value))
      ensures Ledger() == TokenSpec.Apply(Config(), old(Ledger()), TokenSpec.TransferFrom(caller, from, to, value))
      ensures r.Success? ==> TokenSpec.PaidOut(Config(), old(balances), balances, from, to, value)
    {
      var fromAllowance := TokenSpec.Allowance(allowances, from, caller);
      var fee := CalFee(value);
      assert fee == TokenSpec.CalFee(Config(), value);
      if fromAllowance < value + fee { return Failure(TokenSpec.InsufficientAllowance); }
      if BalanceOf(from) < value + fee { return Failure(TokenSpec.InsufficientBalance); }
      if from !in allowances || caller !in allowances[from] {
        // The source pays first and then traps on the missing entry, which undoes the payment.
        return Failure(TokenSpec.Trapped);
      }
      PayOut(from, to, value, fee);
      SpendAllowance(from, caller, value, fee);
      return Success(());
    }

    /** The last part of transfer_from: lower the caller's allowance. */
    method SpendAllowance(from: Principal, caller: Principal, value: nat, fee: nat)
      requires from in allowances && caller in allowances[from]
      requires value + fee <= TokenSpec.Allowance(allowances, from, caller)
      modifies this`allowances
      ensures allowances == TokenSpec.PutAllowance(old(allowances), from, caller,
                              TokenSpec.Allowance(old(allowances), from, caller) - (value + fee))
    {
      var temp := allowances[from];
      var left: nat := temp[caller] - value - fee;
      TokenSpec.PutAllowanceCases(allowances, from, caller, left);
      if left != 0 {
        temp := temp[caller := left];
        allowances := allowances[from := temp];
      } else {
        temp := temp - {caller};
        if |temp| == 0 {
          allowances := allowances - {from};
        } else {
          allowances := allowances[from := temp];
        }
      }
    }

    /** get_allowance_size: sums the inner maps. */
    method GetAllowanceSize() returns (size: nat)
      ensures size == |Pairs(allowances, allowances.Keys)|
    {
      size := 0;
      var done: set<Principal> := {};
      var rest := allowances.Keys;
      assert Pairs(allowances, done) == {};
      while rest != {}
        invariant done !! rest && done + rest == allowances.Keys
        invariant size == |Pairs(allowances, done)|
        decreases rest
      {
        var o :| o in rest;
        PairsAdd(allowances, done, o);
        size := size + |allowances[o]|;
        done, rest := done + {o}, rest - {o};
      }
      assert done == allowances.Keys;
    }
  }

  /** The owner-spender pairs stored for the given owners. */
  function Pairs(a: TokenSpec.Allowances, owners: set<Principal>): set<(Principal, Principal)> {
    set o, s | o in a && o in owners && s in a[o] :: (o, s)
  }

  lemma PairsAdd(a: TokenSpec.Allowances, owners: set<Principal>, o: Principal)
    requires o in a && o !in owners
    ensures |Pairs(a, owners + {o})| == |Pairs(a, owners)| + |a[o]|
  {
    var mine := set s | s in a[o].Keys :: (o, s);
    TagSize(o, a[o].Keys, mine);
    assert Pairs(a, owners + {o}) == Pairs(a, owners) + mine;
    assert Pairs(a, owners) !! mine;
  }

  lemma {:induction false} TagSize(o: Principal, keys: set<Principal>, tagged: set<(Principal, Principal)>)
    requires tagged == set s | s in keys :: (o, s)
    ensures |tagged| == |keys|
  {
    if keys == {} {
      assert tagged == {};
    } else {
      var s :| s in keys;
      TagSize(o, keys - {s}, tagged - {(o, s)});
    }
  }

  /** Nothing stored is zero, so the size counts exactly the pairs with a positive allowance,
      and the number of holders is the number of accounts with a positive balance. */
  lemma CountsAreExact(l: TokenSpec.Ledger)
    requires TokenSpec.Sound(l)
    ensures forall o, s :: (o, s) in Pairs(l.allowances, l.allowances.Keys) <==>
                           TokenSpec.Allowance(l.allowances, o, s) > 0
    ensures forall id :: id in l.balances <==> TokenSpec.Get(l.balances, id) > 0
  {
  }
}
