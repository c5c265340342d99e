/** The user-stats query (`useUserStats`): it is enabled only for a defined,
    non-empty address that the address predicate accepts; its query function
    rejects anything else with "Invalid address" before reading the chain, and
    otherwise combines the holder's lottery stats with a placeholder total
    ticket count into a win chance printed to four decimals. The address
    predicate (viem's `isAddress`), the ether formatter (viem's `formatEther`)
    and the two chain reads are parameters. */
module UserStats {
  import opened Results
  import opened DecimalText
  import opened Tickets

  /** Why the user-stats query function failed. */
  datatype StatsError =
    | InvalidAddress          // thrown before any read: `new Error('Invalid address')`
    | ReadFailed(reason: string)  // a chain read rejected

  /** What the query resolves to for a valid address. */
  datatype UserStatsView = UserStatsView(
    tickets: nat,
    balance: Uint256,
    decimals: Uint8,
    formattedBalance: string,
    winChance: string)

  /** The state a component sees: the query never ran, or it settled. */
  datatype QueryState<T> = Idle | Settled(outcome: Result<T, StatsError>)

  /** Places `winChance.toFixed` prints. */
  const WinChancePlaces: nat := 4

  /** `address && isAddress(address)`, read as a boolean: JavaScript treats both
      `undefined` and the empty string as false, and asks the predicate only
      about a non-empty string. */
  predicate IsValidAddress(address: Option<string>, isAddress: string -> bool): (valid: bool)
    ensures address == None || address == Some("") ==> !valid
    ensures address.Some? && address.value != "" ==> (valid <==> isAddress(address.value))
  {
    match address
    case None => false
    case Some(a) => a != "" && isAddress(a)
  }

  /** The placeholder count of tickets in circulation: a hundred times the
      holder's own tickets, or 1000 for a holder without tickets. */
  function TotalTickets(tickets: nat): (total: nat)
    ensures total > 0
    ensures tickets <= total
    ensures tickets == 0 ==> total == 1000
    ensures tickets > 0 ==> total == 100 * tickets
  {
    if tickets > 0 then tickets * 100 else 1000
  }

  /** A holder's chance, in percent, of `tickets` out of `total`; 0 when there are no tickets at all. */
  function WinChance(tickets: nat, total: nat): (percent: real)
    ensures percent >= 0.0
    ensures tickets == 0 ==> percent == 0.0
    ensures total == 0 ==> percent == 0.0
    ensures tickets <= total ==> percent <= 100.0
    ensures total > 0 ==> percent * total as real == 100.0 * tickets as real
  {
    if total > 0 then (tickets as real / total as real) * 100.0 else 0.0
  }

  /** With the placeholder total the chance is 1% for any holder of a ticket and 0% otherwise. */
  lemma PlaceholderWinChance(tickets: nat)
    ensures WinChance(tickets, TotalTickets(tickets)) == if tickets > 0 then 1.0 else 0.0
  {
    if tickets > 0 {
      assert TotalTickets(tickets) as real == tickets as real * 100.0;
      HundredthShare(tickets as real);
    }
  }

  lemma HundredthShare(x: real)
    requires x > 0.0
    ensures (x / (x * 100.0)) * 100.0 == 1.0
  {
    assert x / (x * 100.0) == 0.01;
  }

  /** Holding every ticket is a 100% chance. */
  lemma WinChanceOfAllTickets(n: nat)
    requires n > 0
    ensures WinChance(n, n) == 100.0
  {
  }

  /** Printed to four places: "1.0000" for a holder of a ticket, "0.0000" otherwise. */
  lemma PlaceholderWinChanceText(tickets: nat)
    ensures ToFixed(WinChance(tickets, TotalTickets(tickets)), WinChancePlaces)
      == if tickets > 0 then "1.0000" else "0.0000"
  {
    PlaceholderWinChance(tickets);
    Pow10Of4();
    var x := WinChance(tickets, TotalTickets(tickets));
    var n := if tickets > 0 then 10000 else 0;
    assert RoundHalfUp(Shift(x, WinChancePlaces)) == n;
    assert NatToString(0) == "0";
    assert NatToString(1) == "1";
    assert PadStart("0", 4, '0') == "0000";
  }

  /** The query function: reject an invalid address before any read, otherwise
      read the balance of the address and the token's decimals and derive the
      view. `balanceOf` and `decimalsRead` stand for the two chain reads. */
  function UserStatsQueryFn(address: Option<string>, isAddress: string -> bool,
                            balanceOf: string -> Result<Uint256, string>,
                            decimalsRead: Result<Uint8, string>,
                            tokensPerTicket: nat,
                            formatEther: nat -> string): (r: Result<UserStatsView, StatsError>)
    requires tokensPerTicket > 0
    ensures r == Err(InvalidAddress) <==> !IsValidAddress(address, isAddress)
    ensures r.Ok? <==>
      IsValidAddress(address, isAddress) && balanceOf(address.value).Ok? && decimalsRead.Ok?
    ensures r.Ok? ==>
      && r.value.balance == balanceOf(address.value).value
      && r.value.decimals == decimalsRead.value
      && r.value.tickets == LotteryTickets(r.value.balance, r.value.decimals, tokensPerTicket)
      && r.value.formattedBalance == formatEther(r.value.balance)
      && r.value.winChance == (if r.value.tickets > 0 then "1.0000" else "0.0000")
    ensures IsValidAddress(address, isAddress) && r.Err? ==>
      && r.error.ReadFailed?
      && ((balanceOf(address.value).Err? && r.error.reason == balanceOf(address.value).error)
          || (decimalsRead.Err? && r.error.reason == decimalsRead.error))
  {
    if !IsValidAddress(address, isAddress) then
      Err(InvalidAddress)
    else
      var balanceRead := match balanceOf(address.value)
        case Ok(b) => Ok(b)
        case Err(e) => Err(ReadFailed(e));
      var decimals := match decimalsRead
        case Ok(d) => Ok(d)
        case Err(e) => Err(ReadFailed(e));
      match UserLotteryStats(balanceRead, decimals, tokensPerTicket)
      case Err(e) => Err(e)
      case Ok(stats) =>
        PlaceholderWinChanceText(stats.tickets);
        var chance := WinChance(stats.tickets, TotalTickets(stats.tickets));
        Ok(UserStatsView(stats.tickets, stats.balance, stats.decimals,
                         formatEther(stats.balance), ToFixed(chance, WinChancePlaces)))
  }

  /** An invalid address is rejected the same way whatever the chain would have answered. */
  lemma InvalidAddressReadsNothing(address: Option<string>, isAddress: string -> bool,
                                   balanceOf1: string -> Result<Uint256, string>, decimals1: Result<Uint8, string>,
                                   balanceOf2: string -> Result<Uint256, string>, decimals2: Result<Uint8, string>,
                                   tokensPerTicket: nat, formatEther: nat -> string)
    requires tokensPerTicket > 0
    requires !IsValidAddress(address, isAddress)
    ensures UserStatsQueryFn(address, isAddress, balanceOf1, decimals1, tokensPerTicket, formatEther)
         == UserStatsQueryFn(address, isAddress, balanceOf2, decimals2, tokensPerTicket, formatEther)
         == Err(InvalidAddress)
  {
  }

  /** The query as a component sees it: `enabled` is the address check, and a
      disabled query stays idle without calling its query function. */
  function UserStatsQuery(address: Option<string>, isAddress: string -> bool,
                          balanceOf: string -> Result<Uint256, string>,
                          decimalsRead: Result<Uint8, string>,
                          tokensPerTicket: nat,
                          formatEther: nat -> string): (s: QueryState<UserStatsView>)
    requires tokensPerTicket > 0
    ensures s.Idle? <==> !IsValidAddress(address, isAddress)
    ensures s != Settled(Err(InvalidAddress))
    ensures s.Settled? ==>
      s.outcome == UserStatsQueryFn(address, isAddress, balanceOf, decimalsRead, tokensPerTicket, formatEther)
  {
    if IsValidAddress(address, isAddress) then
      Settled(UserStatsQueryFn(address, isAddress, balanceOf, decimalsRead, tokensPerTicket, formatEther))
    else
      Idle
  }

  /** "not-an-address", or no address at all, leaves the query idle whenever the predicate rejects it. */
  lemma MalformedAddressStaysIdle(isAddress: string -> bool,
                                  balanceOf: string -> Result<Uint256, string>,
                                  decimalsRead: Result<Uint8, string>,
                                  formatEther: nat -> string)
    requires !isAddress("not-an-address")
    ensures UserStatsQuery(Some("not-an-address"), isAddress, balanceOf, decimalsRead, DefaultTokensPerTicket, formatEther) == Idle
    ensures UserStatsQuery(None, isAddress, balanceOf, decimalsRead, DefaultTokensPerTicket, formatEther) == Idle
    ensures UserStatsQuery(Some(""), isAddress, balanceOf, decimalsRead, DefaultTokensPerTicket, formatEther) == Idle
  {
  }
}
