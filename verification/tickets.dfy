/** Lottery tickets from a token balance (`calculateLotteryTickets`) and the
    record `getUserLotteryStats` assembles from the two ERC-20 reads
    (`balanceOf` and `decimals`, section "Methods" of EIP-20). A holder has
    one ticket per whole `tokensPerTicket` tokens, where a token is 10^decimals
    base units. The source divides a floating-point conversion of the
    balance; this model computes the exact integer quotient it stands for. */
module Tickets {
  import opened Results
  import opened DecimalText
  import opened NatArith

  /** The ratio used when the caller gives none. */
  const DefaultTokensPerTicket: nat := 10000

  /** An ABI `uint256` value (a balance). */
  type Uint256 = n: nat | n < 0x1_0000_0000_0000_0000_0000_0000_0000_0000_0000_0000_0000_0000_0000_0000_0000_0000

  /** An ABI `uint8` value (the token's decimals). */
  type Uint8 = n: nat | n < 256

  /** Base units that make up one ticket. */
  function UnitsPerTicket(decimals: nat, tokensPerTicket: nat): (u: nat)
    requires tokensPerTicket > 0
    ensures u >= tokensPerTicket
  {
    MulMonotone(1, Pow10(decimals), tokensPerTicket);
    Pow10(decimals) * tokensPerTicket
  }

  /** The number of whole tickets `balance` base units buy. */
  function LotteryTickets(balance: nat, decimals: nat, tokensPerTicket: nat): (tickets: nat)
    requires tokensPerTicket > 0
    ensures tickets * UnitsPerTicket(decimals, tokensPerTicket) <= balance
    ensures balance < (tickets + 1) * UnitsPerTicket(decimals, tokensPerTicket)
  {
    FloorDiv(balance, UnitsPerTicket(decimals, tokensPerTicket))
  }

  /** Dividing by 10^decimals and then by the ratio, rounding down each time,
      gives the same count as dividing by their product: the whole-token
      balance floored by the ratio. */
  lemma TicketsAreFlooredTokensPerRatio(balance: nat, decimals: nat, tokensPerTicket: nat)
    requires tokensPerTicket > 0
    ensures LotteryTickets(balance, decimals, tokensPerTicket) == (balance / Pow10(decimals)) / tokensPerTicket
  {
    var unit := UnitsPerTicket(decimals, tokensPerTicket);
    QuotientUnique(balance, unit, LotteryTickets(balance, decimals, tokensPerTicket));
    NestedQuotient(balance, Pow10(decimals), tokensPerTicket);
  }

  /** The exact number of tokens-per-ticket units in a balance, as a real. */
  ghost function ExactTicketRatio(balance: nat, decimals: nat, tokensPerTicket: nat): real
    requires tokensPerTicket > 0
  {
    (balance as real / Pow10(decimals) as real) / tokensPerTicket as real
  }

  /** The ticket count is the floor of the exact token balance divided by the ratio. */
  lemma TicketsAreExactFloor(balance: nat, decimals: nat, tokensPerTicket: nat)
    requires tokensPerTicket > 0
    ensures LotteryTickets(balance, decimals, tokensPerTicket) as real <= ExactTicketRatio(balance, decimals, tokensPerTicket)
    ensures ExactTicketRatio(balance, decimals, tokensPerTicket) < LotteryTickets(balance, decimals, tokensPerTicket) as real + 1.0
  {
    var p := Pow10(decimals);
    var k := tokensPerTicket;
    RealQuotientBounds(balance, p * k, LotteryTickets(balance, decimals, k));
    CastMul(p, k);
    RealNestedQuotient(balance as real, p as real, k as real);
  }

  /** A balance short of one ticket's worth buys no ticket. */
  lemma NoTicketBelowThreshold(balance: nat, decimals: nat, tokensPerTicket: nat)
    requires tokensPerTicket > 0
    requires balance < UnitsPerTicket(decimals, tokensPerTicket)
    ensures LotteryTickets(balance, decimals, tokensPerTicket) == 0
  {
    QuotientUnique(balance, UnitsPerTicket(decimals, tokensPerTicket), 0);
  }

  /** Exactly k tickets' worth of base units buys exactly k tickets. */
  lemma ExactMultiple(k: nat, decimals: nat, tokensPerTicket: nat)
    requires tokensPerTicket > 0
    ensures LotteryTickets(k * UnitsPerTicket(decimals, tokensPerTicket), decimals, tokensPerTicket) == k
  {
    var u := UnitsPerTicket(decimals, tokensPerTicket);
    MulSucc(k, u);
    QuotientUnique(k * u, u, k);
  }

  /** A larger balance never buys fewer tickets. */
  lemma TicketsMonotonic(smaller: nat, larger: nat, decimals: nat, tokensPerTicket: nat)
    requires tokensPerTicket > 0
    requires smaller <= larger
    ensures LotteryTickets(smaller, decimals, tokensPerTicket) <= LotteryTickets(larger, decimals, tokensPerTicket)
  {
    MulCancel(LotteryTickets(smaller, decimals, tokensPerTicket), LotteryTickets(larger, decimals, tokensPerTicket),
              UnitsPerTicket(decimals, tokensPerTicket));
  }

  /** 25 000 tokens of an 18-decimal token at the default ratio are 2 tickets. */
  lemma TwentyFiveThousandTokensScenario()
    ensures LotteryTickets(25000 * Pow10(18), 18, DefaultTokensPerTicket) == 2
  {
    var p := Pow10(18);
    QuotientUnique(25000 * p, p * 10000, 2);
  }

  /** What `getUserLotteryStats` resolves to. */
  datatype LotteryStats = LotteryStats(balance: Uint256, tickets: nat, decimals: Uint8)

  /** `getUserLotteryStats` with its two reads given as their outcomes: it fails
      when either read fails, and otherwise reports the balance and decimals it
      read beside the tickets they buy. */
  function UserLotteryStats<E>(balanceRead: Result<Uint256, E>, decimalsRead: Result<Uint8, E>,
                               tokensPerTicket: nat): (r: Result<LotteryStats, E>)
    requires tokensPerTicket > 0
    ensures r.Ok? <==> balanceRead.Ok? && decimalsRead.Ok?
    ensures r.Err? ==>
      || (balanceRead.Err? && r.error == balanceRead.error)
      || (decimalsRead.Err? && r.error == decimalsRead.error)
    ensures r.Ok? ==>
      && r.value.balance == balanceRead.value
      && r.value.decimals == decimalsRead.value
      && r.value.tickets * UnitsPerTicket(r.value.decimals, tokensPerTicket) <= r.value.balance
      && r.value.balance < (r.value.tickets + 1) * UnitsPerTicket(r.value.decimals, tokensPerTicket)
  {
    var balance :- balanceRead;
    var decimals :- decimalsRead;
    Ok(LotteryStats(balance, LotteryTickets(balance, decimals, tokensPerTicket), decimals))
  }
}
