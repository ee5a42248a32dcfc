/** The account table of the pipeline: a fixed number of portfolios, set up by account id. */
module AccountTable {
  import opened Types
  import opened PipelineSpec
  import A = Accounting
  import Portfolio

  function SeatOf(p: Portfolio.Portfolio): Seat
    reads p
  {
    if p.accountId == 0 then Vacant else Taken(p.Account())
  }

  /** The account table as a value. */
  function SeatsOf(ps: seq<Portfolio.Portfolio>): (s: seq<Seat>)
    reads ps
    ensures |s| == |ps| && forall i | 0 <= i < |ps| :: s[i] == SeatOf(ps[i])
  {
    if ps == [] then [] else [SeatOf(ps[0])] + SeatsOf(ps[1..])
  }

  class AccountTable {
    const accounts: seq<Portfolio.Portfolio>
    ghost const repr: set<object>

    ghost predicate Valid()
      reads this, repr
      ensures Valid() ==> this in repr
    {
      && |accounts| == MAX_ACCOUNTS && this in repr && (forall i | 0 <= i < |accounts| :: accounts[i] in repr)
      && forall i, j | 0 <= i < j < |accounts| :: accounts[i] != accounts[j]
    }

    ghost function Seats(): (s: seq<Seat>)
      requires Valid()
      reads this, repr
      ensures |s| == MAX_ACCOUNTS
    {
      SeatsOf(accounts)
    }

    /** No account is set up yet. */
    constructor ()
      ensures Valid() && fresh(repr) && Seats() == seq(MAX_ACCOUNTS, _ => Vacant)
    {
      var ps: seq<Portfolio.Portfolio> := [];
      ghost var os: set<object> := {};
      while |ps| < MAX_ACCOUNTS
        invariant |ps| <= MAX_ACCOUNTS && fresh(os)
        invariant forall i | 0 <= i < |ps| :: ps[i] in os && ps[i].accountId == 0
        invariant forall i, j | 0 <= i < j < |ps| :: ps[i] != ps[j]
      {
        var p := new Portfolio.Portfolio();
        ps, os := ps + [p], os + {p};
      }
      accounts := ps;
      repr := {this} + os;
    }

    /** pipeline_add_account. */
    method Add(id: nat, startingCash: int)
      requires Valid()
      modifies repr
      ensures Valid()
      ensures Seats() == if 1 <= id <= MAX_ACCOUNTS
                         then old(Seats())[id - 1 := Taken(A.Account(startingCash, 0, 0, 0))] else old(Seats())
    {
      if id == 0 || id > MAX_ACCOUNTS {
        return;
      }
      accounts[id - 1].Init(id, startingCash);
    }

    /** pipeline_account and portfolio_on_fill: the leg of an unknown account is skipped. */
    method FillLeg(account: nat, side: Side, price: int, qty: nat)
      requires Valid()
      modifies repr
      ensures Valid() && Seats() == Leg(old(Seats()), account, A.Signed(side, qty), price)
    {
      hide A.Fill;
      if account == 0 || account > MAX_ACCOUNTS || accounts[account - 1].accountId == 0 {
        return;
      }
      accounts[account - 1].OnFill(side, price, qty);
    }

    /** pipeline_account, as a test. */
    method Has(account: nat) returns (known: bool)
      requires Valid()
      ensures known == Known(Seats(), account)
    {
      known := 1 <= account <= MAX_ACCOUNTS && accounts[account - 1].accountId != 0;
    }
  }
}
