# Sommelier: auctions, cork relay and cork records, verified

This project models three parts of the Sommelier chain in Dafny and proves what they promise.

**The falling-price auction** (`Auction*.dfy`, `Bank.dfy`, `Decimal.dfy`, `Rounding.dfy`, `StoreKeys.dfy`). Tokens are
escrowed, sold at a price that falls with acceleration, and paid out. The state is a bank ledger, active and ended auctions,
bids, token prices and the last ids. `AuctionSpec` gives every transition as a function of the state, with each error and each
panic as an outcome; `AuctionKeeper.Keeper` runs the same transitions step by step on mutable fields and is proved against those
functions. `AuctionRuns` closes them into runs from an empty module; a transaction that fails or panics keeps no write.
`sdk.Dec` is an integer scaled by 10^18: `Mul` rounds half-even, `Quo` truncates at 36 digits and then rounds half-even to
18, `TruncateInt64` panics outside int64, uint64 subtraction wraps, and pricing a bid or an auction panics on a product or
quotient of more than 315 bits. An interval from 2^63 on is read as a negative int64; `Spacing` is its magnitude.

**Cork voting and relay** (`Cork*.dfy`, `CellarLists.dfy`, `KeyOrder.dfy`, `AxelarProxy.dfy`, `AbiLayout.dfy`). Validators
schedule calls, the end of a block groups equal calls and adds up voting power against 0.67, and what is approved may be relayed through the
Axelar proxy. `CorkSpec` gives the transitions, `CorkKeeper.Keeper` the step-by-step handlers proved against them, and
`CorkRuns` the runs. A relay is `RelayCork` together with the validation of the packet it sends: that the middleware sees the
packet is the design stated at x/axelarcork/keeper/msg_server.go:78, while app/app.go:414-418 builds the transfer keeper on the
channel keeper. Payloads are concrete bytes in the Solidity contract ABI.

**The Protocol Buffers codec of the cork records** (`Proto*.dfy`). `ProtoWire` has varints, tags and skipping, `ProtoFields`
the parse loop over any message type, `ProtoRecords` the eight self-contained records with their encodings and merges, and
`ProtoCodec` the loops that write a buffer backwards and read it forwards, proved against the functions.

Beside the laws over runs, each operation has a lemma that says in plain numbers, without the functions that define it, exactly
when it succeeds, what it leaves, and what each error means: `BeginExactly`, `SubmitExactly`, `FinishExactly`,
`SetPricesExactly` and `BlockDecreases` for auctions; `ScheduleExactly`, `EndBlockerEffect`, `EndBlockerResults`, `RelaySends`,
`UpgradeSends`, `ProposeExactly`, `CellarsAccepted` and `PacketExactly` for corks. `CallLayout`, `UpgradeLayout`, `KeyParts` and
the lemmas of `ProtoLayout` fix the bytes.

Addresses parsed from text, bech32 accounts, the Keccak digest, the delegate lookup, validator powers and the outcome of
transfers outside the model are parameters. Unless a row says otherwise, a statement holds for every input or for every
state of every run.

Where the code departs from an expected claim, the exact condition is proved, with a run or an input that shows the departure
where one line does not:

- A bid can pay more than the maximum it names (`PaysMoreThanMaxBid`, with a run from an empty module in
  `ChargedMoreThanMaximum`).
- An auction whose first decrease rounds to zero need not fall, and need not stall. Without bids the price stays for ever if and
  only if the rate from which the next decrease starts takes nothing off and rounds back to itself when accelerated
  (`StallsExactlyWhenFlat`); a run from an empty module stalls (`TinyPriceStalls`), and the same auction at full acceleration is
  over after 30 blocks (`TinyPriceFalls`). Over arbitrary runs a flat rate stalls it (`FlatRateStalls`) and a growing rate ends it
  within a bound (`GrowingRateEnds`).
- `ScheduleCork` compares neither chain id with the other, so one validator can vote for a call repeatedly by naming other
  chains in the cork, and each vote adds the validator's power: 40 percent approve a call alone (`RepeatedVoteApproves`), and two
  deadlines of one call are both approved (`DeadlineVariantsBothApproved`). An entry has exactly its voters' power if and only if
  no validator of positive power has two votes equal to it (`EqualPowerIsVotersPower`); agreement holds with that allowance in
  every state (`ApprovalsAgree`), and without it in every run if scheduling compared the two ids (`AgreementOverRuns`).
- Of two calls approved for one contract at one height the earlier is lost (`ApprovedCallLost`); an approved cork is stored if
  and only if it is the last of its contract and does not expire at once (`ApprovedIsStored`).
- The timeout comparison deletes the corks within the timeout and keeps the older ones. An approved cork stays exactly while
  the height is below the timeout (`ApprovedStaysBelowTimeout`); in a run that starts later nothing is ever relayed
  (`NothingRelayedFromTimeoutOn`).
- Validation looks a chain up by name while relaying looks it up by id. A relay consumes the cork it relays if and only if no
  configured chain of lower id has the same name (`RelayThenValidate`); otherwise it can consume the other chain's cork, and
  one cork is relayed twice (`SameCorkRelayedTwice`). Upgrades behave alike (`UpgradeThenValidate`).
- A share just over 67 percent of a very large total can fail (`ApprovedExactly`, with `BareMajorityRoundedDown`).
- An upgrade proposed while no cellar is managed can never be relayed (`NoCellarsNoUpgrade`).

## Model

| member | source | states |
|---|---|---|
| `AuctionTheorems.EscrowConservation` | x/auction/keeper/keeper.go:240-283 | in every reachable state an active auction's escrow equals its remaining tokens and its start less what its bids bought; no other sale token is held; the usomm held is what the bids of active auctions paid |
| `AuctionTheorems.PayoutsNeverFail` | x/auction/keeper/abci.go:39-44 | in every reachable state finishing has the funds: it never fails, no end of block panics for lack of them, and a bid panics only on an amount outside int64 or a decimal of more than 315 bits; for the decimals of the end of a block see `DecreaseFits` |
| `AuctionTheorems.DecreaseFits` | x/auction/keeper/abci.go:28-36 | in every reachable state the next rate is at most two and the next decrease at most twice the initial price, so an auction that starts below 2^314 stays within 315 bits at the end of a block |
| `AuctionTheorems.BidPanicsExactly` | x/auction/keeper/msg_server.go:39-133 | exactly which valid messages panic, from price, remaining tokens, minimum, maximum and the minimum bid: amounts outside int64, and products and quotients of more than 315 bits |
| `AuctionTheorems.RecordsConsistent` | x/auction/types/auction.go:13-59 | active auctions pass their validation and are open, ended ones are closed, no id is in both stores, one auction per denomination, every bid names a stored auction |
| `AuctionTheorems.BidsInOrder` | x/auction/keeper/msg_server.go:84-95 | within an auction heights ascend and unit prices do not rise with the bid id |
| `AuctionTheorems.ProceedsWithinPrices` | x/auction/keeper/keeper.go:320-328 | proceeds lie between sold tokens at the last price and sold tokens at the initial price plus one usomm per bid |
| `AuctionTheorems.ProceedsBounds` | x/auction/keeper/msg_server.go:80-82 | the same bounds for any list of bids that paid rounded-up costs within two prices |
| `AuctionTheorems.LastBidDecides` | x/auction/keeper/abci.go:22-33 | at every height and for every interval, looking at the last listed bid tells exactly whether any bid of the auction lies in the last interval; before the height reaches the interval none counts |
| `AuctionTheorems.DueAfterInterval` | x/auction/keeper/abci.go:17 | a decrease is due only a whole spacing after the start, so for intervals below 2^63 the subtraction does not wrap then |
| `AuctionTheorems.IdsNeverReused` | x/auction/keeper/keeper.go:240-283 | later in any run ids only grow, a gone id never returns, and an ended record never changes |
| `AuctionPruning.BlockKeepsLatest` | x/auction/keeper/abci.go:14-95 | in every reachable state and for every parameter: of the auctions that ended before or end in this block, exactly those stay that ended within the maximum age or are the latest of their denomination, which is also the last to end; bids go exactly with their auction |
| `AuctionPruning.CutoffReached` | x/auction/keeper/abci.go:82 | the uint64 cutoff compares like the integer one while the age is at most the height, and lies past every height otherwise |
| `AuctionTheorems.ClearingBidEndsAuction` | x/auction/keeper/msg_server.go:39-133 | a funded bid for all that is left is never too small, buys everything for the rounded-up cost, and ends the auction at once |
| `AuctionProgress.PricesNeverRise` | x/auction/keeper/abci.go:35-51 | no step raises a unit price or changes an auction's terms |
| `AuctionProgress.AuctionsEnd` | x/auction/keeper/abci.go:16-52 | for every interval: with a positive first decrease d an auction is active no later than start + spacing * ceil(initial price / d) |
| `AuctionStall.StallsExactlyWhenFlat` | x/auction/keeper/abci.go:28-51 | for every interval, rate and earlier bid: without further bids the price stays for ever if and only if the rate from which the next decrease starts takes nothing off and rounds back to itself when accelerated |
| `AuctionExamples.TinyPriceStalls` | x/auction/keeper/abci.go:28-51 | a run from an empty module to an auction whose price never moves |
| `AuctionExamples.TinyPriceFalls` | x/auction/keeper/abci.go:28-51 | the same auction at full acceleration, over after 30 blocks |
| `AuctionStall.FlatRateStalls` | x/auction/keeper/abci.go:28-51 | over any run at whose blocks the rate is flat and takes nothing off: the price never moves, and the auction ends by selling out only |
| `AuctionStall.GrowingRateEnds` | x/auction/keeper/abci.go:28-45 | over any run without bids at whose blocks the initial rate gains: the auction is over within a bound of blocks, whatever its first decrease |
| `AuctionStall.GainGrows` | x/auction/keeper/abci.go:32 | a higher rate gains no less from one acceleration, rounding included |
| `AuctionStall.FirstDecreaseZeroYetFalls` | x/auction/keeper/abci.go:32-36 | an auction whose first decrease is zero and whose first due decrease takes the whole price |
| `AuctionProgress.NextDecreases` | x/auction/keeper/abci.go:17 | passing a height adds one decrease exactly when one is due there |
| `AuctionPayouts.FinishPaysOut` | x/auction/keeper/keeper.go:307-342 | every account after finishing: unsold tokens to the funding module, proceeds to the proceeds module, nothing else |
| `AuctionPayouts.BidMovesCoins` | x/auction/keeper/msg_server.go:102-133 | every account after an accepted bid: payment in, tokens out, and the full proceeds when it sells out |
| `AuctionPayouts.BeginMovesTokens` | x/auction/keeper/keeper.go:225-283 | every account and the stored record after an auction begins |
| `AuctionBegin.BeginExactly` | x/auction/keeper/keeper.go:181-304 | exactly when an auction begins, with the ages of both recorded prices as plain differences of heights and the price by its roundings, and everything that is then stored |
| `AuctionBegin.BeginErrors` | x/auction/keeper/keeper.go:181-304 | what each error and each panic of beginning an auction says |
| `AuctionBegin.StartingPriceExactly` | x/auction/keeper/keeper.go:225-232 | the starting price is the ratio of the two prices per smallest unit, each of the three quotients truncated at 36 digits and rounded half to even at 18; there is none exactly if one of them takes more than 315 bits or a usomm is worth nothing |
| `AuctionBegin.SetPricesExactly` | x/auction/types/proposal.go:42-70 | exactly which proposals of prices are accepted: some, each valid, no denomination twice; then each is recorded at the current height and every other price stays |
| `AuctionBegin.RunKeepsRecorded` | x/auction/keeper/proposal_handler.go:10-25 | in every state of a run from no prices, each recorded price is positive and was recorded by now |
| `AuctionOffers.ValidMessageExactly` | x/auction/types/msgs.go:41-67 | exactly which bid messages pass their validation |
| `AuctionOffers.SubmitExactly` | x/auction/keeper/msg_server.go:16-150 | in every reachable state: exactly which valid bids are accepted, everything but the ledger that they leave, and what each error says |
| `AuctionOffers.QuoteExactly` | x/auction/keeper/msg_server.go:39-82 | exactly when pricing succeeds, in integer terms, with the tokens and the payment; what each error says |
| `AuctionOffers.FinishExactly` | x/auction/keeper/keeper.go:307-342 | in every reachable state finishing succeeds and moves the record, with this height, to the ended ones |
| `Rounding.MulHalfEven` | x/auction/keeper/abci.go:32-36 | a product of decimals is the exact one rounded half to even |
| `Rounding.QuoIsQuotient` | x/auction/keeper/keeper.go:228-232 | a quotient of decimals is truncated at 36 digits, then rounded half to even at 18 |
| `Rounding.LimitIsTwos` | x/auction/keeper/msg_server.go:67 | the limit of products and quotients is 2^315 |
| `AuctionPricing.AcceptedBid` | x/auction/keeper/msg_server.go:52-82 | an accepted bid buys at least its minimum and at most the escrow and pays the rounded-up cost |
| `AuctionPricing.AcceptedTokens` | x/auction/keeper/msg_server.go:67-78 | how many tokens an accepted bid buys |
| `AuctionPricing.AffordableTokens` | x/auction/keeper/msg_server.go:67 | the rounded quotient is the whole quotient, or one more exactly when 18 digits round it up |
| `AuctionPricing.PaysMoreThanMaxBid` | x/auction/keeper/msg_server.go:67-82 | a payment exceeds the named maximum if and only if the quotient rounds up and the escrow holds the extra token |
| `AuctionPricing.CostNearMaxBid` | x/auction/keeper/msg_server.go:67-82 | cost at most maxBid + price/(2*10^18); never above maxBid up to 2 usomm a token, never above maxBid+1 up to 2*10^18 |
| `AuctionPricing.PaysElevenForTen` | x/auction/keeper/msg_server.go:67-82 | a bid of at most 10 usomm that pays 11 |
| `AuctionExamples.ChargedMoreThanMaximum` | x/auction/keeper/msg_server.go:67-82 | a run from an empty module after which a bid of at most 8000000 usomm is accepted and charged 8000001 |
| `AuctionPricing.PanicsOnOverflow` | x/auction/keeper/msg_server.go:39-82 | pricing panics exactly when the value left or the quotient takes more than 315 bits, or the value left, the minimum's cost or the payment that it reads leaves int64 |
| `AuctionPricing.QuotientFits` | x/auction/keeper/msg_server.go:67 | the rounded quotient takes more than 315 bits exactly on an integer comparison of maximum and price |
| `AuctionPricing.ClearingBid` | x/auction/keeper/msg_server.go:39-82 | pricing accepts any bid that covers all that is left |
| `AuctionRuns.NextKeepsInv` | x/auction/keeper/abci.go:14-95 | every step keeps the invariant of the module |
| `AuctionRuns.ReachableInv` | x/auction/keeper/keeper.go:181-300 | every reachable state satisfies it |
| `AuctionFinish.FinishKeepsInv` | x/auction/keeper/keeper.go:307-342 | finishing an active auction never errors and keeps the invariant |
| `AuctionBid.SubmitBidKeepsInv` | x/auction/keeper/msg_server.go:97-133 | bidding keeps the invariant and never panics once the payment is taken |
| `AuctionBid.QuotedBid` | x/auction/keeper/msg_server.go:32-100 | a priced bid is one the escrow can fill |
| `AuctionBlock.PriceTickKeepsInv` | x/auction/keeper/abci.go:16-66 | one auction's price decrease succeeds, keeps the invariant and leaves the other auctions alone |
| `AuctionBlock.TickRecord` | x/auction/keeper/abci.go:28-36 | the new rate is at least the initial one, the price falls by at least the first decrease, and a price that stays positive has a rate below one |
| `AuctionDecrease.BlockDecreases` | x/auction/keeper/abci.go:16-66 | in every reachable state, on the end of a block and in plain numbers: a decrease falls exactly a whole number of intervals after the start; the rate is then the initial one exactly if a bid lies in the last interval, else the current one accelerated and rounded half to even; the initial price times that rate, rounded likewise, comes off, and the auction ends if nothing is left; at any other height its record stays |
| `AuctionBlock.EndBlockerOn` | x/auction/keeper/abci.go:14-95 | what the end of a block does to one auction does not depend on the others |
| `AuctionBlock.EndBlockerKeepsInv` | x/auction/keeper/abci.go:14-95 | the end of a block always succeeds and keeps the invariant |
| `AuctionKeeper.LaterVisited` | x/auction/keeper/abci.go:73-93 | in the reverse walk a denomination was found before exactly when a later auction of it has ended |
| `AuctionKeeper.AllVisited` | x/auction/keeper/abci.go:76-93 | the walk deletes exactly the auctions that do not survive |
| `AuctionKeeper.Keeper.SubmitBid` | x/auction/keeper/msg_server.go:16-150 | the handler ends and changes the state as specified; an error leaves the state alone |
| `AuctionKeeper.Keeper.Settle` | x/auction/keeper/msg_server.go:102-133 | transfers, records and finish as specified |
| `AuctionKeeper.Keeper.PriceBid` | x/auction/keeper/msg_server.go:39-82 | the checks and amounts of a bid as specified |
| `AuctionKeeper.Keeper.BeginAuction` | x/auction/keeper/keeper.go:181-300 | the handler ends and changes the state as specified |
| `AuctionKeeper.Keeper.FinishAuction` | x/auction/keeper/keeper.go:307-342 | payouts and records as specified |
| `AuctionKeeper.Keeper.EndBlocker` | x/auction/keeper/abci.go:14-95 | price decreases, then pruning, as specified |
| `AuctionKeeper.Keeper.DecreasePrice` | x/auction/keeper/abci.go:17-65 | one auction's decrease as specified |
| `AuctionKeeper.Keeper.PruneEnded` | x/auction/keeper/abci.go:73-93 | the reverse loop leaves exactly the surviving auctions and their bids |
| `AuctionKeeper.Keeper.SetTokenPrices` | x/auction/keeper/proposal_handler.go:10-25 | prices are recorded at the current height without their exponent |
| `AuctionKeeper.Keeper.GetBidsByAuctionID` | x/auction/keeper/keeper.go:417-425 | the loop collects exactly the auction's bids in ascending id |
| `StoreKeys.KeysAreDistinct` | x/auction/types/keys.go:45-105 | no two records of the auction store share a key |
| `StoreKeys.KeyParts` | x/auction/types/keys.go:21-105 | which byte of each key holds what |
| `StoreKeys.BidPrefixExact` | x/auction/types/keys.go:74-85 | a key starts with an auction's bid prefix exactly when it is one of its bids' |
| `StoreKeys.BidKeyOrder` | x/auction/types/keys.go:81-85 | byte order of an auction's bid keys is the order of the bid ids |
| `StoreKeys.IterationYieldsBids` | x/auction/keeper/keeper.go:387-403 | prefix iteration yields exactly that auction's bids in ascending id |
| `BigEndian.EncodeOrder` | x/auction/types/keys.go:50-54 | big-endian numbers of one width compare as bytes the way they compare as numbers |
| `BigEndian.DecodeEncode` | x/auction/types/keys.go:50-54 | fixed-width numbers are read back |
| `CorkTally.TallyGroups` | x/axelarcork/keeper/keeper.go:348-376 | the tally is a correct group-by: entries pairwise different, each with exactly the power of the votes equal to it modulo 2^64, every vote in an entry |
| `CorkVotes.EntriesBegin` | x/axelarcork/keeper/keeper.go:353-369 | each entry of the tally holds the first of the votes equal to it, and the entries come in the order of those votes |
| `CorkVotes.ApprovedInOrder` | x/axelarcork/keeper/keeper.go:376-396 | the approved corks are those of the approved entries, in their order |
| `CorkTally.ApprovedExactly` | x/axelarcork/keeper/keeper.go:376-380 | the exact condition, for every total, under which a rounded share exceeds 0.67 |
| `CorkTally.ApprovedIffOver67Percent` | x/axelarcork/keeper/keeper.go:376-380 | below 2*10^16 of total power approval is exactly more than 67 percent |
| `CorkTally.ApprovedHasOver67Percent` | x/axelarcork/keeper/keeper.go:376-380 | approval always means more than 67 percent |
| `CorkTally.BareMajorityRoundedDown` | x/axelarcork/keeper/keeper.go:376-380 | of a total of 10^19 the smallest share over 67 percent fails |
| `CorkTally.EqualPowerIsVotersPower` | x/axelarcork/keeper/keeper.go:353-369 | for all votes: an entry has at least the power of the validators behind it, and exactly that if and only if none of positive power has two votes equal to it |
| `CorkTally.QuorumAgreement` | x/axelarcork/keeper/keeper.go:348-397 | for all votes: two approved entries share voters with more than 34 percent, less what repeated votes added |
| `CorkTally.DeadlineVariantsNeverBoth` | x/axelarcork/types/axelarcork.go:14-43 | two calls that differ in the deadline only are both approved only if a validator of positive power has two votes for the call |
| `CorkBlock.RepeatedVotesNameOtherChains` | x/axelarcork/types/axelarcork.go:14-43 | two stored votes of one validator for one call name different chains in the cork |
| `CorkBlock.StoredVotesOnce` | x/axelarcork/keeper/keeper.go:97-102 | where stored corks name their own chain, a validator votes once for a call |
| `CorkBlock.ApprovalsAgree` | x/axelarcork/keeper/keeper.go:348-397 | in every state: agreement with the allowance for repeated votes, and without it where there are none |
| `CorkBlock.OwnChainApprovalsAgree` | x/axelarcork/keeper/keeper.go:348-397 | where stored corks name their own chain: agreement without any allowance |
| `CorkExamples.RepeatedVoteApproves` | x/axelarcork/keeper/msg_server.go:25-63 | a run in which a validator with 40 percent schedules one call twice, approves it with 80 and makes it relayable |
| `CorkExamples.DeadlineVariantsBothApproved` | x/axelarcork/types/axelarcork.go:14-43 | a run after which two deadlines of one call are both approved |
| `CorkBlock.EndBlockerEffect` | x/axelarcork/keeper/abci.go:22-56 | exactly the votes of configured chains at the height are consumed, and under every key lies exactly the last approved cork of its contract, or what lay there before, unless it expired |
| `CorkBlock.SetWinnersExactly` | x/axelarcork/keeper/abci.go:34-36 | of several approved corks for one contract the last one stays |
| `CorkResults.EndBlockerResults` | x/axelarcork/keeper/keeper.go:376-396 | under every chain and id lies the result of the last entry of the tally with that id: its cork and height, its rounded share in percent, and approval exactly above 0.67; every other result stays |
| `CorkBlock.ApprovedIsStored` | x/axelarcork/keeper/abci.go:28-56 | an approved cork becomes relayable if and only if it is the last approved for its contract and does not expire at once |
| `CorkExamples.ApprovedCallLost` | x/axelarcork/keeper/abci.go:34-36 | a run after which two calls are approved for one contract and the end of the block stores only one |
| `CorkBlock.EndBlockerPanicsExactly` | x/axelarcork/keeper/keeper.go:353-376 | the end of a block completes if and only if every vote of a configured chain at the height is by a known validator and the total is positive where there is one |
| `CorkTimeout.ApprovedStaysBelowTimeout` | x/axelarcork/keeper/abci.go:42-53 | with the code's comparison an approved cork stays if and only if the height is below the timeout and it is the last of its contract |
| `CorkTimeout.RelayableBelowTimeout` | x/axelarcork/keeper/abci.go:42-53 | in every run with timeouts of at most a limit, only corks approved at heights below it are ever relayable |
| `CorkTimeout.NothingRelayedFromTimeoutOn` | x/axelarcork/keeper/abci.go:42-53 | in a run that starts at the timeout or later no relay ever succeeds |
| `CorkTheorems.AgreementOverRuns` | x/axelarcork/keeper/keeper.go:348-397 | comparing the two chain ids at scheduling would suffice: agreement in every state of every run whose votes name their own chain |
| `CorkTheorems.NoncesWithoutGap` | x/axelarcork/keeper/keeper.go:456-461 | successive relays to a contract carry the nonces 1, 2, 3, ... |
| `CorkTheorems.NonceCountsRelays` | x/axelarcork/keeper/keeper.go:439-461 | the stored nonce is the number of successful relays so far |
| `CorkTheorems.HeightsAscend` | x/axelarcork/keeper/keeper.go:234-250 | after a relay on a chain whose name finds it, later relays to the contract take corks of strictly greater heights |
| `CorkTheorems.RelayedWasApproved` | x/axelarcork/keeper/msg_server.go:78-110 | what a relay sends was approved by the tally at the height it is stored under: contract, call data and deadline |
| `CorkTheorems.WinnersWereApproved` | x/axelarcork/keeper/abci.go:28-36 | every stored winning cork was approved at its height |
| `CorkTheorems.StepScheduled` | x/axelarcork/keeper/keeper.go:121-123 | only scheduling adds votes and only the end of a block consumes them |
| `CorkVotes.ScheduleExactly` | x/axelarcork/keeper/msg_server.go:25-63 | a vote is accepted if and only if the module is enabled, the signer is a delegate, the chain is configured, the contract is in its stored list and the height is later; what it stores, and what each error says |
| `CorkVotes.VotesWereManaged` | x/axelarcork/keeper/msg_server.go:37-50 | in every run without initial votes: each stored vote was scheduled for a contract that was managed then and for a later height |
| `CorkVotes.WinnersWereManaged` | x/axelarcork/keeper/msg_server.go:37-50 | in every run from an empty store: each winning cork was voted for while its contract was managed, before the block it is stored under |
| `CorkVotes.IdIsDigest` | x/axelarcork/types/axelarcork.go:14-24 | the id is the digest of height, chain, contract and call at fixed places |
| `CorkVotes.IdsAgree` | x/axelarcork/types/axelarcork.go:14-24 | ids agree on equal height, chain, contract and call, whatever the deadline; any other agreement is a collision of the digest |
| `CorkRelay.RelayThenValidate` | x/axelarcork/keeper/msg_server.go:65-128 | a relay consumes exactly the cork it relays if and only if no configured chain of lower id has the chain's name |
| `CorkRelay.RelayExactly` | x/axelarcork/keeper/msg_server.go:65-128 | whatever the names: exactly when a relay succeeds, and that it uses the next nonce and consumes the first cork of the contract on the chain that the name finds |
| `CorkSends.RelaySends` | x/axelarcork/keeper/msg_server.go:65-128 | the packet of a relay field by field and its payload byte by byte: the earliest winning cork of the contract with the next nonce; a relay succeeds exactly if the module is enabled, the chain configured, the funds there, the transfer sent and that packet passes; what it leaves, and what each error says |
| `CorkSends.UpgradeSends` | x/axelarcork/keeper/msg_server.go:130-194 | an upgrade is relayed exactly from its threshold on, by the packet with the stored payload, if it passes; what each error says |
| `CorkRelay.CallAgainst` | x/axelarcork/keeper/packet.go:88-109 | a relay's payload against any chain: accepted exactly if that chain's first cork for the contract has the same call data and the nonce is not zero |
| `CorkExamples.SameCorkRelayedTwice` | x/axelarcork/keeper/packet.go:67-109 | a run of votes, blocks and relays on two chains of one name: a cork is relayed twice while the other chain's corks are consumed |
| `CorkRelay.OwnCall` | x/axelarcork/keeper/packet.go:88-109 | the validation consumes the cork that the payload was built from, unless the nonce is zero |
| `CorkRelay.NameFinds` | x/axelarcork/keeper/chain_config.go:37-51 | the lookup by name finds the chain of lowest id with the name: the chain itself if and only if no lower id has it |
| `CorkRelay.UpgradeThenValidate` | x/axelarcork/keeper/msg_server.go:130-194 | a due upgrade is relayed and removed alone if and only if no configured chain of lower id has the chain's name |
| `CorkRelay.RelayUpgradeExactly` | x/axelarcork/keeper/msg_server.go:130-194 | whatever the names: exactly when an upgrade relay succeeds, and which upgrades are then gone |
| `CorkRelay.NoTargetsNoRelay` | x/axelarcork/keeper/packet.go:117-119 | an upgrade without targets can never be relayed |
| `CorkRelay.NoCellarsNoUpgrade` | x/axelarcork/keeper/packet.go:117-119 | an upgrade built while no cellar is managed can never be relayed |
| `CorkRelay.OthersChangeNothing` | x/axelarcork/keeper/packet.go:47-60 | a packet from anyone but the module changes nothing |
| `CorkPackets.PacketExactly` | x/axelarcork/keeper/packet.go:14-143 | exactly which packets pass, for every sender, receiver, memo and channel, what they consume, and what each error says; a packet for the calls account from anyone but the module is refused whatever its memo |
| `CorkRuns.NextKeepsInv` | x/axelarcork/keeper/keeper.go:97-102 | every step keeps keys and records consistent |
| `CorkRuns.ValidationFrame` | x/axelarcork/keeper/packet.go:14-143 | validation only ever removes a winning cork or an upgrade |
| `CorkUpgrades.RelayedUpgradeIsLatestProposal` | x/axelarcork/keeper/proposal_handler.go:207-244 | in every run without initial upgrades: a relayed upgrade is the chain's latest proposal, not cancelled or relayed since, at least 21600 blocks old, built from the cellars managed then |
| `CorkUpgrades.PendingWasProposed` | x/axelarcork/keeper/proposal_handler.go:218-229 | every pending upgrade comes from a proposal that no later step touched |
| `CorkSends.ProposeExactly` | x/axelarcork/keeper/proposal_handler.go:207-245 | what a proposal stores for a configured chain, byte by byte, with the threshold 21600 blocks away; a cancellation leaves none |
| `CorkSends.ExecutableAfterDelay` | x/axelarcork/types/axelar_proxy.go:18-19 | over every run a pending upgrade is refused as too early exactly below 21600 blocks after its proposal, and from then on can be relayed |
| `CorkCellars.AddCellarsExactly` | x/axelarcork/keeper/proposal_handler.go:26-71 | an addition manages exactly the old and the proposed cellars, once each, sorted, and subscribes exactly the new ones |
| `CorkCellars.RemoveCellarsExactly` | x/axelarcork/keeper/proposal_handler.go:74-109 | a removal manages exactly the others, keeps the list sorted, and unsubscribes exactly the listed ones |
| `CorkCellars.CellarsAccepted` | x/axelarcork/keeper/proposal_handler.go:26-87 | exactly when the two proposals are accepted, and what each error says |
| `CorkCellars.RunKeepsCanonical` | x/axelarcork/keeper/proposal_handler.go:67-101 | in every state of a run from empty lists each list is strictly sorted and canonical, so both handlers' premise holds |
| `CellarLists.SortTextsSorts` | x/axelarcork/keeper/proposal_handler.go:67 | sorting keeps the members and orders them strictly |
| `CellarLists.TextBeforeExactly` | x/axelarcork/keeper/proposal_handler.go:67 | the order of texts: a text precedes its continuations and those with a larger code unit at the first difference |
| `CorkSpec.NextWinning` | x/axelarcork/keeper/keeper.go:234-250 | the first winning cork of a contract in key order has its lowest height; none is found only if there is none |
| `CorkKeys.WinningOrder` | x/axelarcork/types/keys.go:104-108 | winning corks of a chain are iterated by height, then contract |
| `CorkKeys.ScheduledOrder` | x/axelarcork/types/keys.go:77-80 | the order in which votes of one height are iterated |
| `CorkKeys.ScheduledChainOrder` | x/axelarcork/types/keys.go:67-80 | the order in which a chain's votes are iterated, heights first |
| `CorkKeys.ScheduledKeyParts` | x/axelarcork/keeper/keeper.go:139-147 | the iterator cuts out of a key what went into it |
| `CorkKeys.WinningKeyParts` | x/axelarcork/keeper/keeper.go:219-225 | likewise for winning corks |
| `CorkKeys.PrefixesExact` | x/axelarcork/types/keys.go:67-108 | a key lies under a prefix exactly when it names that chain and height |
| `CorkKeeper.AddVote` | x/axelarcork/keeper/keeper.go:356-369 | the two parallel lists after one vote are the tally's entries |
| `CorkKeeper.Keeper.GetApprovedScheduledAxelarCorks` | x/axelarcork/keeper/keeper.go:348-397 | the loops count, consume and record as specified |
| `CorkKeeper.Keeper.CountVotes` | x/axelarcork/keeper/keeper.go:353-374 | the voting loop yields the tally and deletes exactly the votes it visits |
| `CorkKeeper.Keeper.RecordResults` | x/axelarcork/keeper/keeper.go:376-396 | results and approved corks as specified |
| `CorkKeeper.Keeper.EndBlocker` | x/axelarcork/keeper/abci.go:22-56 | every chain in turn as specified, with the code's timeout comparison |
| `CorkKeeper.Keeper.EndOneChain` | x/axelarcork/keeper/abci.go:23-53 | one chain: tally, winners, then the timeout, as specified |
| `CorkKeeper.Keeper.DropExpired` | x/axelarcork/keeper/abci.go:42-53 | the loop deletes exactly the winning corks that the comparison names |
| `CorkKeeper.Keeper.ScheduleCork` | x/axelarcork/keeper/msg_server.go:25-63 | the handler as specified; an error leaves the state alone |
| `CorkKeeper.Keeper.RelayCork` | x/axelarcork/keeper/msg_server.go:65-128 | the handler as specified |
| `CorkKeeper.Keeper.RelayProxyUpgrade` | x/axelarcork/keeper/msg_server.go:130-194 | the handler as specified |
| `CorkKeeper.Keeper.ValidateAxelarPacket` | x/axelarcork/keeper/packet.go:14-143 | the checks in order as specified; an error leaves the state alone |
| `CorkKeeper.Keeper.ValidatePayload` | x/axelarcork/keeper/packet.go:88-142 | dispatch, target loop and deletions as specified |
| `CorkKeeper.Keeper.GetWinningAxelarCork` | x/axelarcork/keeper/keeper.go:234-250 | the search loop finds the specified cork |
| `CorkKeeper.Keeper.GetScheduledBlockHeights` | x/axelarcork/keeper/keeper.go:274-287 | the loop yields the distinct positive heights in ascending order |
| `CorkKeeper.Keeper.IncrementNonce` | x/axelarcork/keeper/keeper.go:456-461 | the nonce grows by one modulo 2^64 |
| `CorkKeeper.Keeper.HandleAddManagedCellars` | x/axelarcork/keeper/proposal_handler.go:26-71 | the handler as specified, default subscriptions included |
| `CorkKeeper.Keeper.HandleRemoveManagedCellars` | x/axelarcork/keeper/proposal_handler.go:74-109 | the handler as specified, default subscriptions included |
| `CorkKeeper.Keeper.HandleUpgradeProposal` | x/axelarcork/keeper/proposal_handler.go:207-232 | the handler as specified |
| `CorkKeeper.Keeper.HandleCancelProposal` | x/axelarcork/keeper/proposal_handler.go:236-245 | the handler as specified |
| `CorkKeeper.EncodeUpgradeArgs` | x/axelarcork/types/axelar_proxy.go:100-111 | targets are parsed in order and encoded |
| `CorkKeeper.DecodeUpgradeArgs` | x/axelarcork/types/axelar_proxy.go:113-139 | targets are decoded and printed in order, with the decoder's errors |
| `AxelarProxy.LogicCallRoundTrip` | x/axelarcork/types/axelar_proxy.go:61-98 | every logic call is restored, for all uint64 nonces and deadlines |
| `AxelarProxy.UpgradeRoundTrip` | x/axelarcork/types/axelar_proxy.go:100-139 | every upgrade is restored with its targets in order |
| `AxelarProxy.NeverBoth` | x/axelarcork/keeper/packet.go:89-112 | no bytes at all are accepted by both decoders |
| `AxelarProxy.NonceWord` | x/axelarcork/types/axelar_proxy.go:61-69 | an uint64 written as int64 into 256 bits is read back from the low 64 |
| `AbiLayout.CallLayout` | x/axelarcork/types/axelar_proxy.go:61-69 | the bytes of a call: the words 0, target, nonce and deadline sign-extended from int64, 160 and the length, then the data and zeros to a whole word; no other bytes fit |
| `AbiLayout.UpgradeLayout` | x/axelarcork/types/axelar_proxy.go:100-111 | the bytes of an upgrade: the words 1, new proxy, 96 and the count, then a word for each target |
| `AbiLayout.CallAccepted` | x/axelarcork/types/axelar_proxy.go:71-98 | exactly which bytes are read as a call, and as which one |
| `AbiLayout.UpgradeAccepted` | x/axelarcork/types/axelar_proxy.go:113-139 | exactly which bytes are read as an upgrade, and as which one |
| `ProtoWire.VarintBack` | x/axelarcork/types/axelarcork.pb.go:1123-1133 | every uint64 is read back from its varint, whatever follows |
| `ProtoWire.SovIsVarintLength` | x/axelarcork/types/axelarcork.pb.go:1331-1333 | the computed size is the length of the varint |
| `ProtoWire.SkipLocal` | x/axelarcork/types/axelarcork.pb.go:2579-2656 | skipping does not depend on what follows |
| `ProtoLayout.VarintWritten` | x/axelarcork/types/axelarcork.pb.go:1123-1133 | a written varint has the value in groups of seven bits, continued exactly by the high bits, without a group too many |
| `ProtoLayout.VarintAccepted` | x/axelarcork/types/axelarcork.pb.go:1343-1357 | exactly which bytes are read as a number: a chain of at most ten bytes, of whose value the low 64 bits count |
| `ProtoLayout.TagsRefused` | x/axelarcork/types/axelarcork.pb.go:1358-1366 | which fields are refused for their tag: closing groups, numbers that are not positive as int32, known fields of another wire type |
| `ProtoLayout.UnknownFieldBounds` | x/axelarcork/types/axelarcork.pb.go:2579-2656 | unknown fields of wire types 6, 7 and 4 are refused, and fixed-width ones need their bytes |
| `ProtoLayout.BytesFieldExactly` | x/axelarcork/types/axelarcork.pb.go:1367-1400 | a field of bytes needs a length below 2^63 and within the data, and holds exactly those bytes |
| `ProtoFields.UnmarshalConcat` | x/axelarcork/types/axelarcork.pb.go:1337-1490 | unmarshalling a concatenation continues from the message the first part gave |
| `ProtoFields.SkipExactly` | x/axelarcork/types/axelarcork.pb.go:2579-2656 | a well-formed field with groups nested to any depth is skipped exactly |
| `ProtoFields.UnknownFieldIgnored` | x/axelarcork/types/axelarcork.pb.go:1470-1483 | inserting any well-formed unknown field between fields changes nothing |
| `ProtoFields.FieldBack` | x/axelarcork/types/axelarcork.pb.go:1340-1469 | every encoded field is read back |
| `ProtoRecords.CorkMerges` | x/axelarcork/types/axelarcork.pb.go:1337-1490 | decoding an encoding into a cork merges the two |
| `ProtoRecords.CorkRoundTrip` | x/axelarcork/types/axelarcork.pb.go:696-726 | every cork is restored |
| `ProtoRecords.CorkSize` | x/axelarcork/types/axelarcork.pb.go:1134-1155 | the encoding has exactly the computed size |
| `ProtoLayout.CorkLayout` | x/axelarcork/types/axelarcork.pb.go:696-726 | the bytes of a cork, tag by tag |
| `ProtoLayout.ScheduledLayout` | x/axelarcork/types/axelarcork.pb.go:743-780 | the bytes of a scheduled cork, its nested cork included |
| `ProtoLayout.ResultLayout` | x/axelarcork/types/axelarcork.pb.go:834-874 | the bytes of a result |
| `ProtoLayout.ListsLayout` | x/axelarcork/types/axelarcork.pb.go:797-948 | the bytes of the lists of scheduled corks and of results, and of an id set |
| `ProtoLayout.NonceLayout` | x/axelarcork/types/axelarcork.pb.go:1058-1081 | the bytes of a nonce record |
| `ProtoLayout.UpgradeDataLayout` | x/axelarcork/types/axelarcork.pb.go:1098-1121 | the bytes of upgrade data, a negative threshold as the uint64 that is 2^64 above it |
| `ProtoRecords.ScheduledMerges` | x/axelarcork/types/axelarcork.pb.go:1491-1659 | decoding into a scheduled cork merges, nested cork included |
| `ProtoRecords.ScheduledRoundTrip` | x/axelarcork/types/axelarcork.pb.go:743-780 | every scheduled cork is restored, with or without its nested cork |
| `ProtoRecords.ScheduledSize` | x/axelarcork/types/axelarcork.pb.go:1157-1179 | exact size |
| `ProtoRecords.ScheduledConcatenation` | x/axelarcork/types/axelarcork.pb.go:1549-1554 | two encodings in a row: last one wins, nested corks merge |
| `ProtoRecords.ResultMerges` | x/axelarcork/types/axelarcork.pb.go:1744-1900 | decoding into a result merges |
| `ProtoRecords.ResultRoundTrip` | x/axelarcork/types/axelarcork.pb.go:834-874 | every result is restored |
| `ProtoRecords.ResultSize` | x/axelarcork/types/axelarcork.pb.go:1196-1217 | exact size |
| `ProtoRecords.ResultConcatenation` | x/axelarcork/types/axelarcork.pb.go:1744-1900 | two encodings in a row merge |
| `ProtoRecords.ScheduledsMerge` | x/axelarcork/types/axelarcork.pb.go:1660-1743 | repeated scheduled corks append |
| `ProtoRecords.ScheduledsRoundTrip` | x/axelarcork/types/axelarcork.pb.go:797-817 | every list of scheduled corks is restored |
| `ProtoRecords.ScheduledsSize` | x/axelarcork/types/axelarcork.pb.go:1181-1194 | exact size |
| `ProtoRecords.ResultsMerge` | x/axelarcork/types/axelarcork.pb.go:1901-1984 | repeated results append |
| `ProtoRecords.ResultsRoundTrip` | x/axelarcork/types/axelarcork.pb.go:891-911 | every list of results is restored |
| `ProtoRecords.ResultsSize` | x/axelarcork/types/axelarcork.pb.go:1219-1232 | exact size |
| `ProtoRecords.CellarsMerge` | x/axelarcork/types/axelarcork.pb.go:1985-2085 | repeated ids append, the chain id of the second wins |
| `ProtoRecords.CellarsRoundTrip` | x/axelarcork/types/axelarcork.pb.go:928-948 | every id set is restored, empty ids included |
| `ProtoRecords.CellarsSize` | x/axelarcork/types/axelarcork.pb.go:1234-1250 | exact size |
| `ProtoRecords.CellarsConcatenation` | x/axelarcork/types/axelarcork.pb.go:1985-2085 | two encodings in a row append |
| `ProtoRecords.NonceMerges` | x/axelarcork/types/axelarcork.pb.go:2337-2456 | decoding into a nonce record merges |
| `ProtoRecords.NonceRoundTrip` | x/axelarcork/types/axelarcork.pb.go:1058-1081 | every nonce record is restored |
| `ProtoRecords.NonceSize` | x/axelarcork/types/axelarcork.pb.go:1293-1310 | exact size |
| `ProtoRecords.UpgradeMerges` | x/axelarcork/types/axelarcork.pb.go:2457-2578 | decoding into upgrade data merges |
| `ProtoRecords.UpgradeRoundTrip` | x/axelarcork/types/axelarcork.pb.go:1098-1121 | every upgrade record is restored, negative int64 included |
| `ProtoRecords.UpgradeSize` | x/axelarcork/types/axelarcork.pb.go:1312-1329 | exact size |
| `ProtoRecords.ConcatenationMerges` | x/axelarcork/types/axelarcork.pb.go:1337-1490 | two encodings in a row merge for any record whose decoder merges |
| `ProtoCodec.EncodeVarintBefore` | x/axelarcork/types/axelarcork.pb.go:1123-1133 | the loop writes exactly the varint that ends at the offset and nothing else |
| `ProtoCodec.MarshalCork` | x/axelarcork/types/axelarcork.pb.go:696-726 | writing backwards fills exactly the encoding's bytes and nothing else |
| `ProtoCodec.MarshalScheduled` | x/axelarcork/types/axelarcork.pb.go:743-780 | likewise, the nested cork written in place |
| `ProtoCodec.MarshalScheduleds` | x/axelarcork/types/axelarcork.pb.go:797-817 | likewise, entries from the last to the first |
| `ProtoCodec.MarshalResult` | x/axelarcork/types/axelarcork.pb.go:834-874 | likewise |
| `ProtoCodec.MarshalResults` | x/axelarcork/types/axelarcork.pb.go:891-911 | likewise |
| `ProtoCodec.MarshalCellars` | x/axelarcork/types/axelarcork.pb.go:928-948 | likewise |
| `ProtoCodec.MarshalNonce` | x/axelarcork/types/axelarcork.pb.go:1058-1081 | likewise |
| `ProtoCodec.MarshalUpgrade` | x/axelarcork/types/axelarcork.pb.go:1098-1121 | likewise |
| `ProtoCodec.Marshal` | x/axelarcork/types/axelarcork.pb.go:782-790 | a buffer of exactly the computed size is filled exactly, and decodes to the record |
| `ProtoCodec.SizeScheduleds` | x/axelarcork/types/axelarcork.pb.go:1181-1194 | the size loop gives the length of the encoding |
| `ProtoCodec.ReadVarint` | x/axelarcork/types/axelarcork.pb.go:1343-1357 | the shifting loop reads the varint, with its errors |
| `ProtoCodec.SkipField` | x/axelarcork/types/axelarcork.pb.go:2579-2656 | the skipping loop with its depth counter, with its errors |
| `ProtoCodec.UnmarshalRecord` | x/axelarcork/types/axelarcork.pb.go:1337-1490 | the parse loop of any record |
| `ProtoCodec.UnmarshalCork` | x/axelarcork/types/axelarcork.pb.go:1337-1490 | the parse loop with a cork's fields set one by one |

## Left out

- Bit-length limits of `sdk.Int`, the panic of the tenth power on large exponents, the syntax of denominations and addresses, whether sending is enabled, module accounts that do not exist, vesting, and events.
- AuctionTheorems.PayoutsNeverFail: the 315-bit limit is modelled where bids and beginnings are priced, not in the end of a block, where it matters from an initial price of 2^314 on.
- AuctionBegin.BeginExactly: supposes positive prices recorded by now, as in every run from no prices (AuctionBegin.RunKeepsRecorded).
- CorkSends.ExecutableAfterDelay: supposes that the proposal's height plus the delay stays below 2^63, where the threshold wraps.
- The genesis states of both modules, and winning corks in the exported genesis.
- JSON, bech32, hexadecimal parsing and Keccak are functions of their argument; a packet arrives parsed or not.
- IBC transport, token transfers of a relay, gas bumping and the community pool: a relay is told whether the sender has the funds and whether the rest of the transfer succeeds.
- AxelarProxy.LogicCallRoundTrip: holds for payloads shorter than 2^63 bytes; reading the nonce keeps the low 64 bits of the word, which is how `Uint64` behaves beyond its documented range.
- AxelarProxy.UpgradeRoundTrip: holds for payloads shorter than 2^63 bytes.
- A panic at the end of a cork block stops the run; what a node does then is not modelled.
- The rest of the pubsub module, and the scheduled-cork proposal, which only checks.
- `ChainConfiguration` and `ChainConfigurations` records, whose encodings contain library types; the getters and text forms of the records.
- A nil byte field and an empty one are one value; nil entries of repeated fields are not modelled. A length whose end would overflow an int fails here with the end-of-input error instead of the invalid-length one.
- The eight generated parse loops differ in their fields only; they are one loop over a field table, and the loop of a cork is also written out.
- ProtoRecords.CorkRoundTrip: like the other merges and round trips, holds for encodings shorter than 2^63 bytes, as every buffer is.
- CorkTheorems.AgreementOverRuns: supposes the comparison that scheduling does not make; CorkBlock.ApprovalsAgree is what holds without it. Both suppose that validators' powers add up to at most the total.
- CorkRelay.RelayThenValidate: supposes well-formed addresses; CorkRelay.RelayExactly does not.
- cellarfees, cork, pubsub and incentives modules, staking and gravity internals, the command line, gRPC and the Rust clients.
