# Lottery front-end core, modelled in Dafny

This project models the arithmetic and text-building logic of the lottery
website's front end:

- **Draw timer** (`useDrawTimer`). It reads the last draw's timestamp, adds the
  configured draw interval in hours, and counts down to the next draw against
  the wall clock, never below zero.
- **Tickets** (`calculateLotteryTickets`, `getUserLotteryStats`). An ERC-20
  balance of base units, at the token's decimals, buys one lottery ticket per
  whole `tokensPerTicket` tokens. The stats record pairs the two chain reads
  (`balanceOf`, `decimals`) with the ticket count.
- **User stats** (`useUserStats`). The query runs only for a defined, non-empty
  address the address predicate accepts. Its query function rejects anything
  else with "Invalid address" before any read. Otherwise it reports the stats,
  the formatted balance, and a win chance against a placeholder total
  (100 × the holder's tickets, or 1000). The win chance is printed to four
  decimals.
- **Home page countdown** (`page.tsx`). It shows the time to the top of the
  hour as "M:SS". The initial display states are "59:59" and "0.0000".
- **Buy link** (`getUniswapBuyUrl`). This is the swap page's URL plus a query of
  three parameters. `URLSearchParams` serializes that query with the
  `application/x-www-form-urlencoded` serializer of the WHATWG URL Standard,
  over the UTF-8 encoding of RFC 3629.

## Modules

| file | module | content |
|---|---|---|
| results.dfy | `Results` | `Option` and `Result`, the latter usable with `:-` |
| nat_arith.dfy | `NatArith` | small lemmas on floor division and on exact quotients |
| decimal_text.dfy | `DecimalText` | `Number.prototype.toString`, `padStart` and `toFixed`, restricted to the naturals and reals the core uses |
| draw_schedule.dfy | `DrawSchedule` | the draw timer |
| tickets.dfy | `Tickets` | tickets from a balance, and the stats record |
| user_stats.dfy | `UserStats` | the user-stats query and its placeholder win chance |
| countdown.dfy | `Countdown` | the home-page countdown text and the initial states |
| form_urlencoded.dfy | `FormUrlencoded` | the form-urlencoded serializer and parser |
| uniswap_link.dfy | `UniswapLink` | the buy link |

Inputs the source takes from its environment are parameters here:

- The clock is `nowMillis` (milliseconds since the epoch), or a minute and
  second reading.
- Each chain read is a `Result` value: either the value read or a failure.
- viem's `isAddress` is a function parameter, and so is `formatEther`.
- The two configuration values are parameters. These are the draw interval
  in hours and the tokens per ticket.

## Model

| member | source | states |
|---|---|---|
| DrawSchedule.UnixSeconds | website/lib/hooks/useContractData.ts:33 | the clock in whole seconds is the largest s with s·1000 at or before the millisecond reading |
| DrawSchedule.SecondsUntil | website/lib/hooks/useContractData.ts:34 | the countdown is zero exactly when now has reached the next draw, and otherwise it is the gap that brings now to the next draw |
| DrawSchedule.ComputeDrawTimer | website/lib/hooks/useContractData.ts:30-40 | the timer keeps the last-draw timestamp. The next draw is one interval (hours × 3600 s) after it. The countdown is zero iff the clock has reached the next draw, and otherwise it is what separates the clock from it |
| DrawSchedule.DrawTimerQuery | website/lib/hooks/useContractData.ts:29-41 | the timer query succeeds iff the last-draw read succeeds. A failed read is passed on with its own error, and a successful one gives the timer computed from the timestamp read |
| DrawSchedule.CountdownAtMostInterval | website/lib/hooks/useContractData.ts:32-34 | once the clock has reached the last draw, the countdown is at most one draw interval. A clock behind the last draw adds at most its lag |
| DrawSchedule.CountdownNonIncreasing | website/lib/hooks/useContractData.ts:33-34 | a later clock reading never shows a longer countdown |
| DrawSchedule.CountdownTicksDown | website/lib/hooks/useContractData.ts:32-34 | before the draw is due, d more whole seconds on the clock take exactly d off the countdown |
| DrawSchedule.HalfHourScenario | website/lib/hooks/useContractData.ts:30-40 | half an hour after the last draw, with an hourly draw, the next draw is half an hour ahead and 1800 s remain |
| Tickets.LotteryTickets | website/lib/contracts/erc20.ts:55-58 | the ticket count is the unique t with t tickets' worth of base units at or below the balance and t+1 tickets' worth above it |
| Tickets.TicketsAreFlooredTokensPerRatio | website/lib/contracts/erc20.ts:56-57 | the count equals the balance floored to whole tokens, then floored by the tokens-per-ticket ratio |
| Tickets.TicketsAreExactFloor | website/lib/contracts/erc20.ts:56-57 | the count is the floor of the exact real token balance divided by the ratio |
| Tickets.NoTicketBelowThreshold | website/lib/contracts/erc20.ts:55-58 | a balance short of one ticket's worth buys no ticket |
| Tickets.ExactMultiple | website/lib/contracts/erc20.ts:55-58 | exactly k tickets' worth of base units buys exactly k tickets |
| Tickets.TicketsMonotonic | website/lib/contracts/erc20.ts:55-58 | a larger balance never buys fewer tickets |
| Tickets.TwentyFiveThousandTokensScenario | website/lib/contracts/erc20.ts:55-58 | 25 000 tokens of an 18-decimal token at the default 10 000 tokens per ticket buy 2 tickets |
| Tickets.UserLotteryStats | website/lib/contracts/erc20.ts:60-77 | the stats exist iff both reads succeed, and a failure carries a failed read's error. On success the stats report the balance and decimals read, and tickets floored as in the ticket count |
| UserStats.TotalTickets | website/lib/hooks/useContractData.ts:73 | the placeholder total is exactly 100 × the tickets for a holder of tickets and 1000 for a holder without tickets, so it is positive and never below the tickets |
| UserStats.WinChance | website/lib/hooks/useContractData.ts:74 | the chance is a percentage in 0..100 when tickets ≤ total. It is zero without tickets and zero against a zero total, and otherwise its share of the total is exactly the tickets |
| UserStats.PlaceholderWinChance | website/lib/hooks/useContractData.ts:73-74 | against the placeholder total, any holder of a ticket has a 1% chance and everyone else has 0% |
| UserStats.WinChanceOfAllTickets | website/lib/hooks/useContractData.ts:74 | holding every ticket is a 100% chance |
| UserStats.PlaceholderWinChanceText | website/lib/hooks/useContractData.ts:73-81 | the printed chance is "1.0000" for a holder of a ticket and "0.0000" otherwise |
| UserStats.IsValidAddress | website/lib/hooks/useContractData.ts:58 | an undefined or empty address is never valid, and a non-empty one is valid exactly when the address predicate accepts it |
| UserStats.UserStatsQueryFn | website/lib/hooks/useContractData.ts:62-83 | the query function fails with "Invalid address" iff the address check fails. It succeeds iff the address is valid and both reads succeed. For a valid address any other failure is a failed read, carrying the error of a read that failed. The view carries the balance and decimals read, the ticket count, the balance as formatEther prints it, and the printed win chance |
| UserStats.InvalidAddressReadsNothing | website/lib/hooks/useContractData.ts:63 | an invalid address is rejected the same way whatever the chain would answer, so no read influences it |
| UserStats.UserStatsQuery | website/lib/hooks/useContractData.ts:57-86 | the query stays idle iff the address is undefined, empty or rejected by the predicate. A settled query holds exactly what the query function gives, so never the "Invalid address" error |
| UserStats.MalformedAddressStaysIdle | website/lib/hooks/useContractData.ts:57-63 | "not-an-address" (when the predicate rejects it), no address, and the empty address all leave the query idle |
| Countdown.MinutesLeft | website/app/page.tsx:13 | the minutes shown and the minute reading add up to 59, so fewer than 60 are shown |
| Countdown.SecondsLeft | website/app/page.tsx:14 | the seconds shown and the seconds reading add up to 59 |
| Countdown.TimeLeft | website/app/page.tsx:12-15 | the timer text is 4 or 5 characters long, with a colon before the last two, and before the colon stands the minutes left unpadded |
| Countdown.TimeLeftRoundTrip | website/app/page.tsx:15 | reading the timer text back gives the minutes and seconds left |
| Countdown.DisplayedSeconds | website/app/page.tsx:12-15 | the display stands for 3599 minus the seconds elapsed in the hour |
| Countdown.CountsDownBySecond | website/app/page.tsx:11-16 | one tick later in the same hour shows one second less |
| Countdown.InitialTimeLeftIsTopOfHour | website/app/page.tsx:7 | the initial "59:59" is what the first tick shows at the top of an hour, and it reads back as 59 min 59 s |
| Countdown.InitialJackpotIsZero | website/app/page.tsx:6 | the initial "0.0000" is zero written to four decimals |
| DecimalText.NatToStringRoundTrip | website/app/page.tsx:15 | the decimal text of a number reads back as that number |
| DecimalText.PadStartRoundTrip | website/app/page.tsx:15 | padding a number's text with leading zeros leaves its value unchanged |
| DecimalText.ToFixedIsNearest | website/lib/hooks/useContractData.ts:81 | the four-decimal text has the requested number of fraction digits, and its value is within half a unit of the last place of the number |
| DecimalText.FixedPointRoundTrip | website/lib/hooks/useContractData.ts:81 | fixed-point text reads back as the scaled integer it was made from |
| FormUrlencoded.FormEncode | website/lib/uniswap.ts:5-10 | serialized names and values contain only characters that the serializer's output alphabet allows |
| FormUrlencoded.FormEncodeRoundTrip | website/lib/uniswap.ts:5-10 | decoding a serialized name or value gives back its UTF-8 bytes |
| FormUrlencoded.UnreservedBytes | website/lib/uniswap.ts:5-10 | the bytes the serializer leaves as they are are exactly the ASCII letters, digits and `*-._` |
| FormUrlencoded.EncodeBytesAlphabet | website/lib/uniswap.ts:5-10 | encoding bytes yields only characters of the serializer's output alphabet |
| FormUrlencoded.PlainTextVerbatim | website/lib/uniswap.ts:5-10 | text made only of ASCII letters, digits and `*-._` is serialized unchanged |
| FormUrlencoded.SplitJoin | website/lib/uniswap.ts:10 | splitting `&`-joined pieces that contain no `&` gives the pieces back |
| FormUrlencoded.SerializeRoundTrip | website/lib/uniswap.ts:5-10 | parsing a serialized parameter list gives back every pair, in order, as UTF-8 bytes |
| UniswapLink.BuyParams | website/lib/uniswap.ts:5-9 | there are three parameters in insertion order: chain=base, inputCurrency=ETH, outputCurrency=the address |
| UniswapLink.UniswapBuyUrl | website/lib/uniswap.ts:3-11 | the link starts with the swap page's address followed by `?` |
| UniswapLink.BuyUrlQuery | website/lib/uniswap.ts:3-11 | for any address, the link's query parses into exactly the three parameters in order, with the address as its UTF-8 bytes |
| UniswapLink.HexAddressVerbatim | website/lib/uniswap.ts:3-11 | for a `0x…` hex address the link is `https://app.uniswap.org/swap?chain=base&inputCurrency=ETH&outputCurrency=` followed by the address unchanged |

## Left out

- The chain reads themselves are left out. This covers viem's public client, the ERC-20 and pool ABIs, and `getTokenBalance`, `getTokenDecimals` and `getLastDrawTime`. The reads of `balanceOf`, `decimals` and the last draw time appear as their outcome, a `Result` holding a value or a failure, and a failure is passed on.
- `getJackpotBalance` is left out entirely. Nothing in the modelled core depends on the jackpot balance.
- `useJackpotBalance` is left out. It only wraps a chain read and `formatEther`, and contains no logic of its own.
- react-query scheduling is left out: `refetchInterval`, `staleTime`, the cache keys and retries. The model covers one run of each query function.
- `isAddress` and `formatEther` come from viem and are parameters. Their own rules (checksums, decimal formatting of wei) are not part of this model.
- website/lib/contracts/addresses.ts is not part of this model. Its `DRAW_INTERVAL_HOURS`, `TOKENS_PER_TICKET` and contract addresses are parameters.
- The clock is an input. `Date.now()` is `nowMillis`. `getMinutes()` and `getSeconds()` are a minute and second reading, and the timezone is left out.
- Tickets.LotteryTickets: computes the exact integer quotient, not IEEE-754 doubles. The source converts `formatUnits(balance, decimals)` with `Number`, which can round a balance just below a ticket boundary up to the boundary. An example is 10^22 − 1 base units at 18 decimals, which could come out as one ticket instead of zero. That rounding is not modelled.
- Tickets.LotteryTickets: requires a positive tokens-per-ticket ratio. In JavaScript a zero ratio divides into `Infinity` or `NaN`, which is not modelled.
- DrawSchedule.ComputeDrawTimer: takes the last-draw timestamp as an exact natural. `Number(lastDraw)` loses precision above 2^53 seconds, which is not modelled.
- UserStats.WinChance: computes in exact reals, not doubles. DecimalText.ToFixedIsNearest likewise rounds the exact value half up, whereas `toFixed` works on the double nearest to it.
- `openUniswapBuy` is left out. It only passes the link to `window.open`, a host side effect.
- The page's markup, styles and state setters are left out. The model keeps the countdown text and the two initial display states.
- Strings here are sequences of Unicode scalar values. A JavaScript string can hold an unpaired surrogate, which `URLSearchParams` replaces with U+FFFD before encoding. Such strings, and that replacement, are left out.
