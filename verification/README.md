# Terra Classic core: a verified model

Dafny models of five components of a Cosmos SDK chain, with proofs of what each of them keeps:

- **Oracle voting** (`x/oracle`): validators commit a hash in one vote period and reveal the rates
  behind it in the next. The last block of a period builds a ballot per denom, picks a reference
  denom, converts the other ballots to cross rates, takes weighted medians, counts wins and misses,
  pays the winners, clears the ballots and slashes. Modules `Ballots`, `Tally`, `TallyLoops`,
  `TallyFacts`, `OracleRates`, `Rewards`, `OracleState`, `OracleKeeper`, `OracleRuns`, `SlashWindows`,
  `Thresholds`, `Solvency`.
- **Market** (`x/market`): a virtual constant-product pool kept as one signed delta, moved by swaps
  and replenished every block, and the mint, burn and fee of a swap. Modules `Market`,
  `MarketLaw`, `MarketKeeper`, `MarketExact`, `MarketRounding`.
- **Fee decorator** (`custom/auth/ante/fee.go`): one pass decides how a fee splits into gas, tax and
  refund, a second pass redoes the split to deduct it. Module `Fees`.
- **FIFO mempool** (`app/mempool`): two linked queues, two lookup maps and a snapshot iterator. Modules
  `Clist`, `Mempool`.
- **Dynamic commission** (`x/dyncomm`) and the **wire codec** of a prevote (`x/oracle/types/oracle.pb.go`).
  Modules `DynComm`, `DynCommTxs`, `DynCommRuns`, `Varint`, `PrevoteCodec`, `UnknownFields`.

`dafny verify dfyconfig.toml` checks the whole project.

## Conventions

- `sdk.Dec` is an integer scaled by 10^18 (`Decimals`): products and quotients round half to even,
  division by an integer truncates towards zero. `MarketExact` alone uses real numbers. What a rounded
  result amounts to is stated as a two-sided bound on exact products of integers (`IsProduct`,
  `IsQuotient`, `IsCutQuotient` and the predicates built on them), which mentions no rounded operation.
- A range over a Go map picks its next key arbitrarily (`:|`), and the method that contains it is
  proved equal to a definition that mentions no order. That is what makes the end of a vote period
  deterministic.
- A panic is a `None` or `false` result, never a precondition. Refused messages return the error.
- The vote hash, the parser of rate strings and the square root of the standard deviation are
  function-valued fields, so every statement holds for all choices of them. The parser rejects
  duplicate denoms, so a parsed vote is a map.
- Parameters are fixed over a run and satisfy the modules' own `Params.Validate`; the market's base
  pool is positive. Voting powers are non-negative and unbounded.
- A run is a sequence of states and steps without a panic: prevotes, votes and block ends for the
  oracle; epochs, transactions of nested messages, removals and changes of stake for the commissions;
  swaps and block ends for the pool. Run theorems hold at every position of every run.
- No stored vote target has the empty name: validation refuses such a name, the oracle keeper has it
  as its invariant, and `TargetsStayNamed` shows that every run keeps it. `TallyVotes` says what the
  tally would do otherwise.

## What the proofs found

Each of these comes with a concrete counterexample or an exact condition.

- A tally divides by zero if some cross-rate median is zero. `TallyCompletesIff` and
  `PeriodEndCompletesIff` say exactly when it does not. Of the threshold this asks that twice the votes
  needed exceed the claimed power by at least two, and no less will do (`ThresholdExact`,
  `ConfigurationExact`). The default threshold of one half falls short at every even power, and so does
  every lower one that validation accepts (`DefaultThresholdPanics`): a ballot passes at the threshold,
  not only above it as the documentation has it (`x/oracle/spec/01_concepts.md`). A strict majority can
  fall short too: two of three (`TwoThirdsFail`).
- `uluna` is always listed for rewards, so as a vote target it is listed twice. Paying is solvent for
  all balances and winners if and only if the listed fractions add up to at most one (`SolvencyIff`);
  a configuration can always pay if and only if a period takes at most half a balance, or no ballot can
  ever pass (`AlwaysPayableIff`).
- The miss counters fit the slash window in every run if and only if the vote period divides it or the
  whitelist is empty (`WindowSafeIff`); validation asks for neither.
- Replenishing never turns a non-zero delta into zero, with one exception: a recovery period of one.
- In fixed point a swap of Luna can be paid more than the Terra pool holds, which exact arithmetic
  excludes (`PoolStaysPositive`): through a very large offer (`OverdrawnPool`), and through conversions
  at very small rates even for a small one (`OverdrawnByConversion`). The overdraft is at most what the
  roundings add (`PoolAfterSwap`), and below an explicit bound the pool stays positive over every run
  (`FixedPoolStaysPositive`).
- `Insert` of the mempool does not look for an existing key: the pool stays consistent if and only if
  the key was new.
- A validator that was removed and is created again can start below the minimum still stored for its
  address (`AlwaysAboveMinimumIff`, `RecreatedBelowMinimum`). Edits and creations wrapped in another
  message do not record a target (`NestedEdit`).
- A whitelist that repeats a name is accepted by validation and can then fail to be applied
  (`WhitelistAppliedInFull`).
- The ante filter of the commissions carries its error variable across messages, so an undecodable
  packet followed by an undecodable authz message is refused although neither edits anything
  (`FilterMsgs`).

The code is followed where its comments or documents say otherwise: the band of winners is
max(deviation, median times half the reward band), not max(deviation, half the reward band); a swap's
spread fee goes to the oracle account and is not burned; a winner without a validator makes the
reward loop fail on a nil value instead of being skipped; the whitelist is compared with the targets
that survived the tally, not with the stored ones; the valid-vote rate is taken over the vote periods
of a window, not over its blocks.

## Model

| member | source | states |
|---|---|---|
| `Ballots.Power` | x/oracle/types/ballot.go:88-95 | the loop returns the total power of the votes |
| `Ballots.WeightedMedian` | x/oracle/types/ballot.go:99-113 | on a sorted ballot the scan returns the least voted rate at which the power at or below it reaches half the total, rounded down; zero if there are no votes |
| `Ballots.WeightedMedianUnique` | x/oracle/types/ballot.go:99-113 | two ballots with the same votes in any order have the same median, so an unstable sort is harmless |
| `Ballots.WeightedMedianExists` | x/oracle/types/ballot.go:99-113 | every non-empty ballot has such a rate |
| `Ballots.MedianHasPower` | x/oracle/types/ballot.go:99-113 | with total power at least two the median is the rate of a vote with positive power |
| `Ballots.MedianPositiveIff` | x/oracle/types/ballot.go:99-113 | the median is positive iff all rates are, or the votes at or below zero carry less than half the power |
| `Ballots.SortBallot` | x/oracle/types/ballot.go:149-156 | the result is sorted by rate and has the same votes |
| `Ballots.StandardDeviation` | x/oracle/types/ballot.go:116-140 | the loop returns the root of the mean squared deviation from the median, zero on an empty ballot |
| `Ballots.VarianceExact` | x/oracle/types/ballot.go:116-140 | what the root is taken of is the mean of the squared deviations from the median, up to explicit rounding |
| `Ballots.DeviationPermutes` | x/oracle/types/ballot.go:116-140 | the deviation depends on the votes only, not on their order |
| `Ballots.ToMap` | x/oracle/types/ballot.go:37-46 | the map holds the last positive rate of every voter that has one, which with one vote each are exactly the positive rates |
| `Ballots.ReferenceMapUnique` | x/oracle/types/ballot.go:37-46 | the map does not depend on the order of the votes |
| `Ballots.ToCrossRateWithSort` | x/oracle/types/ballot.go:68-85 | the result is sorted and holds each vote as a cross rate, or with zero rate and power where there is no base |
| `Ballots.CrossBallotOneVoteEach` | x/oracle/types/ballot.go:68-85 | conversion to cross rates keeps one vote per validator |
| `Tally.ReferenceUnique` | x/oracle/tally.go:49-86 | the denom with the largest power, ties to the first name, is unique |
| `Tally.ReferenceExists` | x/oracle/tally.go:49-86 | every list of denoms has such a reference |
| `Tally.Poll.BallotMember` | x/oracle/keeper/ballot.go:15-56 | a vote is in a denom's ballot iff it is an active validator's stored rate for it, without power if it abstains |
| `Tally.Poll.BallotOneVoteEach` | x/oracle/keeper/ballot.go:15-56 | each validator has at most one vote in a ballot |
| `Tally.Poll.BasesAreReference` | x/oracle/abci.go:60-64 | the bases of the cross rates are exactly the positive rates of the reference ballot |
| `Tally.Poll.CountedVoters` | x/oracle/tally.go:23-35 | every vote of a tallied ballot belongs to a claimed validator, so its claim exists |
| `Tally.SpreadPermutes` | x/oracle/tally.go:14-21 | median and band are the same for every order of the votes |
| `Tally.RewardSpread` | x/oracle/tally.go:15-21 | the band is the larger of the deviation and half the reward band of the median |
| `Tally.CreditWinners` | x/oracle/tally.go:23-35 | each claim, a blank one for a voter without, gains exactly the power and number of its voter's votes that are in the band or abstain; no other claim changes |
| `Tally.TallyBallot` | x/oracle/tally.go:14-38 | returns the median and credits exactly the winners around it |
| `TallyLoops.AddVotes` | x/oracle/keeper/ballot.go:19-45 | one validator's vote is appended to the ballot of each denom it names and to no other |
| `TallyLoops.OrganizeBallotByDenom` | x/oracle/keeper/ballot.go:15-56 | in any order of the stored votes, each denom voted on has one sorted ballot with exactly its votes |
| `TallyLoops.BallotIsPassing` | x/oracle/tally.go:41-44 | a ballot passes iff its power is not zero and reaches the threshold |
| `TallyLoops.PickReferenceTerra` | x/oracle/tally.go:49-86 | in any order of the ballots, yields the reference denom, the surviving targets and the passing ballots |
| `TallyLoops.BallotToTally` | x/oracle/abci.go:69-72 | the reference ballot is tallied as it is, the others as cross rates |
| `TallyLoops.CreditBallot` | x/oracle/abci.go:74-75 | tallying a counted ballot changes claimed validators only and yields the median its votes determine |
| `TallyLoops.TallyDenom` | x/oracle/abci.go:67-84 | defined iff the cross-rate median is not zero; then the stored rate is the one `OracleRates.StoredRate` pins to the medians, and the claims are credited |
| `TallyLoops.TallyLoop` | x/oracle/abci.go:60-85 | after all passing ballots, in any order, rates and claims are those the votes determine; a panic means some rate is undefined |
| `TallyLoops.TallyVotes` | x/oracle/abci.go:42-85 | the tally is deterministic: for every order of iteration it ends in the same targets, rates and claims, and it panics iff some cross-rate median is zero; a rate is stored for exactly the passing denoms, the weighted median of the reference, and for the others that median over the median of the cross rates to within half a unit; a reference without a name is taken for none |
| `OracleRates.ReferenceExact` | x/oracle/tally.go:49-86 | the reference passes, no passing denom has more power, and those with equal power come later in the order |
| `Tally.BeforeIff` | x/oracle/tally.go:80-82 | that order is the lexicographic one: a proper prefix, or a smaller character at the first difference |
| `OracleRates.StoredRate` | x/oracle/abci.go:67-84 | for every passing denom the stored rate m of the reference is a weighted median of its ballot, and any other rate r satisfies 2*10^18*abs(r*c - m*10^18) <= c*(10^18+2) for the cross-rate median c > 0 |
| `OracleRates.CrossRate` | x/oracle/types/ballot.go:68-85 | a counted vote with power is its voter's rate for the reference over its rate for the denom, rounded once, and both were voted positive |
| `OracleRates.UnanimousReference` | x/oracle/abci.go:67-84 | if all positive votes on the reference agree, and it has power two or more, its median is that rate |
| `OracleRates.UnanimousRate` | x/oracle/abci.go:60-84 | if all positive votes on the reference agree and all on the denom agree, the stored rate is the rate voted on the denom, up to the explicit rounding of the two divisions |
| `OracleRates.BandWidth` | x/oracle/tally.go:15-21 | the band is the larger of the deviation and half the reward band of the median, the latter up to explicit rounding |
| `OracleRates.CoveredIff` | x/oracle/tally.go:23-35 | a validator wins a ballot iff its vote is at most the band away from the median or abstains |
| `OracleRates.WeightGained` | x/oracle/tally.go:27-34 | on a ballot it gains its counted power if it wins, and nothing otherwise |
| `OracleRates.ClaimWeight` | x/oracle/tally.go:23-35 | the weight of a claim is the counted power over exactly the passing denoms its validator covered |
| `TallyFacts.WinsInIndicator` | x/oracle/tally.go:23-35 | a validator wins a ballot at most once, and does iff it has an in-band or abstaining vote in it |
| `TallyFacts.FullWinsIffCovered` | x/oracle/abci.go:87-98 | the win count never exceeds the surviving targets, and equals them iff the validator covered every one |
| `TallyFacts.QuorumIntersection` | x/oracle/types/ballot.go:68-85 | the cross ballot keeps at least R + Q - P power, for reference power R, ballot power Q and total claim power P |
| `TallyFacts.OverlapMakesRateDefined` | x/oracle/abci.go:67-84 | with R + Q - P at least two and no shared cross rate rounding to zero, the cross-rate median is positive |
| `TallyFacts.RateDefinedIff` | x/oracle/abci.go:74-80 | the division by a cross-rate median is defined iff all cross rates are positive or zero rates carry less than half the power |
| `TallyFacts.TallyCompletesIff` | x/oracle/abci.go:60-85 | the tally completes iff that holds for every passing denom but the reference |
| `TallyFacts.DisjointTurnoutFails` | x/oracle/abci.go:67-84 | a passing ballot with no voter in common with the reference makes the tally divide by zero |
| `Thresholds.OverlapThresholdSuffices` | x/oracle/tally.go:41-55 | if twice the threshold exceeds the claimed power by two, and no cross rate rounds to zero, the tally completes |
| `Thresholds.VotesNeededNearest` | x/oracle/tally.go:53-55 | the votes needed are the threshold's part of the bonded power to the nearest vote |
| `Thresholds.NarrowOverlapFails` | x/oracle/abci.go:67-84 | a cross ballot of power at most one with a voter that has no cross rate makes the tally divide by zero |
| `Thresholds.NarrowPollFails` | x/oracle/tally.go:41-86 | for every power and threshold short of the bound, a poll with that claimed power on which the tally divides by zero |
| `Thresholds.ThresholdExact` | x/oracle/tally.go:41-86 | all polls of a claimed power and threshold without a cross rate rounding to zero complete iff twice the threshold exceeds the power by at least two |
| `Thresholds.HalfFails` | x/oracle/types/params.go:35-36 | at the default threshold, 50 of 100, two validators of 50 that vote on different targets make the tally divide by zero |
| `Thresholds.TwoThirdsFail` | x/oracle/tally.go:41-44 | at a threshold of 2 of 3 three validators of 1 with one in common do so too |
| `Thresholds.PeriodEndPanics` | x/oracle/abci.go:19-85 | with any valid configuration short of the bound, some state and block make the end of a period panic |
| `Thresholds.DefaultThresholdPanics` | x/oracle/types/params.go:35-36 | the default threshold of one half, and every lower one, does so at every even bonded power |
| `Thresholds.ConfigurationExact` | x/oracle/tally.go:53-55 | at a bonded power, no tally of any state and block without a cross rate rounding to zero divides by zero iff twice the rounded votes needed exceed it by at least two |
| `Rewards.SharesWithinReward` | x/oracle/keeper/reward.go:66-84 | the rounded and truncated shares exceed the reward by less than one unit for fewer than 2 * 10^18 winners |
| `Rewards.SolvencyIff` | x/oracle/keeper/reward.go:23-90 | all balances can pay all winners iff the fractions listed for a denom add up to at most one |
| `Rewards.DistributionRatioBounds` | x/oracle/keeper/reward.go:44-45 | the ratio of the period lies between zero and one |
| `Rewards.RatioExact` | x/oracle/keeper/reward.go:44-45 | window * ratio <= votePeriod * 10^18 < window * (ratio + 1) |
| `Rewards.RewardExact` | x/oracle/keeper/reward.go:47-60 | the reward of a denom is the vote period's part of its balance, once for each time it is listed, less at most 10^-18 of that balance |
| `Rewards.ShareExact` | x/oracle/keeper/reward.go:70-71 | a share is the weight's part of the reward: above it by less than the rounding, below it by at most the roundings and one unit cut off |
| `Rewards.SharesMakeUpReward` | x/oracle/keeper/reward.go:66-84 | the shares of n winners make up the reward, less at most n units and explicit roundings |
| `Rewards.PayoutExact` | x/oracle/keeper/reward.go:44-90 | the payout of a denom is the vote period's part of its listed balance: above it by less than the rounding, below it by at most the digits cut off the ratio and, for each winner, a unit and the roundings |
| `Rewards.CreditExact` | x/oracle/keeper/reward.go:67-77 | each winner is credited the part of the reward its weight calls for, in the same bounds |
| `Rewards.PaidInFits` | x/oracle/keeper/reward.go:33-90 | what is paid in a denom is between zero and the balance of the oracle account |
| `Rewards.SumWeights` | x/oracle/keeper/reward.go:33-37 | the sum of the weights, in any order |
| `Rewards.RewardDenoms` | x/oracle/keeper/reward.go:23-31 | uluna is listed once, and each target once more |
| `Rewards.PeriodRewards` | x/oracle/keeper/reward.go:47-60 | the reward of a denom is its balance times the ratio, once for each time it is listed |
| `Rewards.DoleOut` | x/oracle/keeper/reward.go:65-84 | in any order of the winners, each is credited its shares and the distributed coins are their sums; fails iff some winner is unknown |
| `Rewards.RewardBallotWinners` | x/oracle/keeper/reward.go:16-91 | in every denom and whatever the orders the coins to transfer are votePeriod / window of the balance, once for each time the denom is listed, within explicit bounds from both sides in the number of winners (`IsPayout`); the credit of each winner is its share; nothing without weight |
| `Rewards.CreditsAddUp` | x/oracle/keeper/reward.go:66-90 | in every denom the credits of all winners add up to the coins transferred |
| `OracleState.WhitelistAppliedInFull` | x/oracle/keeper/ballot.go:77-117 | if no target was pruned, the stored targets become the whitelist iff an update is found necessary or no name is repeated |
| `OracleState.PeriodsInWindow` | x/oracle/keeper/slash.go:12-17 | the truncated quotient is the integer number of vote periods in a window, at least one |
| `OracleKeeper.BuildClaimPowers` | x/oracle/abci.go:21-40 | the loop yields the claim map of the ranked validators |
| `OracleKeeper.ClaimPowersExact` | x/oracle/abci.go:21-40 | claims are exactly the bonded validators that fewer than the maximum number of bonded ones outrank, each with its power |
| `OracleKeeper.ClaimsAreKnown` | x/oracle/keeper/reward.go:67-74 | every claim has a validator, so the reward loop meets no nil |
| `OracleKeeper.CountMisses` | x/oracle/abci.go:87-98 | in any order, exactly the claims with fewer wins than targets gain one miss |
| `OracleKeeper.ClearPrevotes` | x/oracle/keeper/ballot.go:59-67 | deleting while iterating leaves exactly the prevotes not yet expired |
| `OracleKeeper.ApplyWhitelist` | x/oracle/keeper/ballot.go:77-117 | the targets are replaced iff the whitelist differs from the surviving targets |
| `OracleKeeper.Keeper.AggregateExchangeRatePrevote` | x/oracle/keeper/msg_server.go:24-63 | the error, or the validator's new prevote at the current height with everything else unchanged |
| `OracleKeeper.Keeper.AggregateExchangeRateVote` | x/oracle/keeper/msg_server.go:65-130 | the error in the source's order of checks, or the vote stored and the prevote gone |
| `OracleKeeper.Keeper.SendToDistribution` | x/oracle/keeper/reward.go:86-90 | succeeds iff the oracle account holds the coins, and moves exactly them |
| `OracleKeeper.Keeper.PayWinners` | x/oracle/keeper/reward.go:16-91 | succeeds iff the payout fits in every denom, moves exactly the payout and credits each winner its share |
| `OracleKeeper.Keeper.TallyPeriod` | x/oracle/abci.go:21-85 | the outcome the stored votes determine, or a panic iff some rate is undefined |
| `OracleKeeper.Keeper.ClearBallotsAndApplyWhitelist` | x/oracle/abci.go:109-113 | no vote is left, unexpired prevotes are kept, the whitelist is applied |
| `OracleKeeper.Keeper.EndPeriod` | x/oracle/abci.go:19-114 | the whole new state is the order-free one of the period's end; fails iff that is undefined |
| `OracleKeeper.Keeper.SlashAndResetMissCounters` | x/oracle/keeper/slash.go:8-48 | in any order, exactly the bonded, unjailed operators below the minimum rate are slashed, and no counter is left |
| `OracleKeeper.Keeper.EndBlocker` | x/oracle/abci.go:15-121 | the whole new state after a block, with period end and window end in that order |
| `OracleRuns.EndedStores` | x/oracle/abci.go:15-121 | a block changes prevotes and votes only at the end of a period |
| `OracleRuns.TargetsStayNamed` | x/oracle/keeper/ballot.go:77-117 | over every run no vote target has the empty name |
| `OracleRuns.RatesFromLastTally` | x/oracle/abci.go:42-85 | at every position of every run the stored rates are those of the last tally: exactly the denoms that passed it, each at the rate it promises, and none from before |
| `OracleRuns.RevealAcceptedIff` | x/oracle/keeper/msg_server.go:65-130 | a reveal stores its vote and uses up the prevote iff it is permitted, the prevote is of the period before, the rates parse and name targets only and the hash matches; otherwise nothing changes |
| `OracleRuns.PrevoteAcceptedIff` | x/oracle/keeper/msg_server.go:24-63 | a prevote replaces the validator's earlier one iff it is permitted and its hash well-formed; otherwise nothing changes |
| `OracleRuns.VotesStayOnTargets` | x/oracle/keeper/msg_server.go:99-104 | in every run from an empty vote store only current targets are voted on |
| `OracleRuns.PrevoteOrigin` | x/oracle/keeper/msg_server.go:24-63 | a stored prevote comes from a prevote step, and was neither replaced nor revealed since |
| `OracleRuns.VoteOrigin` | x/oracle/keeper/msg_server.go:65-130 | a stored vote was revealed in the current period, and is its validator's last reveal |
| `OracleRuns.CommitRevealSafety` | x/oracle/keeper/msg_server.go:65-130 | in every run from an empty vote store, each stored vote was revealed in the current period against a hash-matching prevote of the period before |
| `OracleRuns.RevealsSeparated` | x/oracle/keeper/msg_server.go:84-114 | a later reveal is backed by a later prevote and falls in a later period: no prevote backs two reveals, and a validator reveals at most once a period |
| `OracleRuns.ClearBallotsExact` | x/oracle/keeper/ballot.go:59-67 | clearing drops nothing that a later block could reveal; the one kept height that can no longer be revealed is the last block of the period before |
| `OracleRuns.PrevotesStayRecent` | x/oracle/keeper/ballot.go:59-67 | in every reachable state each stored prevote was submitted within the last two vote periods |
| `OracleRuns.AlwaysPayable` | x/oracle/keeper/reward.go:33-90 | if uluna is no target, or the period takes at most half a balance, the reward transfer always has enough funds |
| `Solvency.BallotWithinClaims` | x/oracle/keeper/ballot.go:15-56 | no ballot has more power than the claims together |
| `Solvency.NobodyPasses` | x/oracle/tally.go:41-55 | with a threshold of three halves or more no ballot passes, so nothing is paid |
| `Solvency.LunaUnpaid` | x/oracle/keeper/reward.go:23-90 | with uluna as a target and more than half a balance per period, a state and block for which the transfer fails and the end of the period panics |
| `Solvency.AlwaysPayableIff` | x/oracle/keeper/reward.go:23-90 | a configuration can pay the winners of every state and block iff a period takes at most half a balance or no ballot can ever pass |
| `OracleRuns.PeriodEndCompletesIff` | x/oracle/abci.go:19-114 | under that condition a period's end completes iff no zero cross rate decides a median |
| `OracleRuns.FundsConserved` | x/oracle/keeper/reward.go:86-90 | over every run, oracle and distribution accounts together keep their funds in every denom |
| `SlashWindows.MissCountedIff` | x/oracle/abci.go:87-98 | a claimed validator's counter rises by exactly one iff some surviving target has no in-band or abstaining vote from it |
| `SlashWindows.CountersStayWithin` | x/oracle/abci.go:116-120 | if the vote period divides the window, counters never exceed the periods completed since the window began, in every run |
| `SlashWindows.DividingWindowSafe` | x/oracle/keeper/slash.go:22-26 | then every counter at a slash check is at most the vote periods per window |
| `SlashWindows.RateInRange` | x/oracle/keeper/slash.go:23-29 | up to that bound the unsigned difference does not wrap, the rate is in [0, 1], and the penalty is exactly the documented comparison |
| `SlashWindows.RateAboveBound` | x/oracle/keeper/slash.go:23-26 | above it the difference is read as negative |
| `SlashWindows.SlashedIff` | x/oracle/keeper/slash.go:22-43 | up to that bound a validator is slashed iff it is bonded, not jailed, and the periods it did not miss fall short of the minimum's part of the window |
| `SlashWindows.WindowEndSafety` | x/oracle/keeper/slash.go:8-48 | every run that starts without counters passes each check with valid rates and leaves no counter |
| `SlashWindows.CrowdedWindow` | types/util/blocks.go:16-19 | if the period does not divide the window, some window ends more periods than the quotient |
| `SlashWindows.CrowdedRun` | x/oracle/keeper/slash.go:22-26 | then there is a run whose counter exceeds the bound at a check |
| `SlashWindows.EmptyWhitelistSafe` | x/oracle/keeper/ballot.go:77-89 | with an empty whitelist a validator is charged at most once before the targets are gone for good, so every check is within bounds |
| `SlashWindows.WindowSafeIff` | x/oracle/keeper/slash.go:8-48 | all checks of all runs from named targets and no counters are within bounds iff the vote period divides the slash window or the whitelist is empty |
| `Market.TerraToLunaSpread` | x/market/keeper/swap.go:95-130 | in fixed point, with a positive Terra pool and offer, the spread is defined and lies between the minimum and one; its value is pinned by `MarketLaw.PoolSpreadExact` |
| `Market.QuotePositive` | x/market/keeper/swap.go:52-131 | quoted amounts are positive; between Terra denoms the spread is the larger tobin tax, against Luna at least the minimum |
| `Market.FeeWithinAmount` | x/market/keeper/msg_server.go:70-79 | a spread of at most one never takes more than the amount |
| `Market.FeeExceedsAmount` | x/market/keeper/msg_server.go:70-79 | a spread of at least one takes all of it or more |
| `Market.TerraToLunaFee` | x/market/keeper/msg_server.go:64-79 | a Terra to Luna swap is quoted, its spread is at most one and its fee at most the amount |
| `Market.CoinsAddUp` | x/market/keeper/msg_server.go:100-109 | delivered coin and fee coin are non-negative and add up to the whole part of the quoted amount; the delivered coin is the whole part of the amount less the fee |
| `Market.PositiveCoinMeansFee` | x/market/keeper/msg_server.go:103-106 | only a spread below one delivers a positive coin |
| `MarketLaw.InternalExact` | x/market/keeper/swap.go:133-157 | a conversion is worth amount * askRate / offerRate, up to the explicit rounding of product and quotient, and positive |
| `MarketLaw.QuotedIff` | x/market/keeper/swap.go:52-131 | with a positive pool a swap is quoted iff the denoms differ, both conversions work and, between Terra denoms, both tobin taxes are known |
| `MarketLaw.PoolSpreadExact` | x/market/keeper/swap.go:95-130 | in both directions what the spread leaves of a base offer exceeds askPool - cp / (offerPool + offer) by at most the rounding of the spread, and unless the spread is the minimum falls short of it by no more |
| `MarketLaw.FeeExact` | x/market/keeper/msg_server.go:70-76 | the fee is the spread's part of the amount, rounded once |
| `MarketLaw.QuoteExact` | x/market/keeper/swap.go:52-131 | a quote is the offer at the oracle price through the base denom, with the larger tobin tax between Terra denoms and the constant-product spread against Luna |
| `MarketLaw.SwapLaw` | x/market/keeper/swap.go:52-131 | every quoted swap against Luna, in either direction: the amount left after the fee, at the oracle price, exceeds askPool - cp / (offerPool + offer) by at most explicit roundings, and above the minimum spread falls short of it by no more |
| `MarketLaw.DeltaExact` | x/market/keeper/swap.go:15-46 | the pool delta grows by the base value of a Terra offer, shrinks by that of the Terra delivered, and stays between Terra denoms |
| `Market.ReplenishStep` | x/market/keeper/keeper.go:82-93 | a block moves the delta towards zero without crossing it, by one part of the recovery period, cut off; to zero iff the period is one, not at all iff the scaled magnitude is below the period |
| `Market.ReplenishMonotone` | x/market/keeper/keeper.go:82-93 | over any number of blocks the delta shrinks and keeps its sign, and never vanishes with a period of two or more |
| `Market.ReplenishSettles` | x/market/keeper/keeper.go:82-93 | after finitely many blocks the scaled magnitude is below the period and stays there for ever |
| `MarketKeeper.QuoteMatchesSimulation` | x/market/keeper/swap.go:159-184 | the simulation announces a positive coin iff the swap delivers one, and the same coin |
| `MarketKeeper.SucceedsIffNoError` | x/market/keeper/msg_server.go:60-131 | a request is without error iff it is quoted, settled, funded, worth a positive coin and its receiver not blocked |
| `MarketKeeper.DivideQuote` | x/market/keeper/msg_server.go:69-79 | unless the fee exceeds the amount, delivered coin and fee coin are non-negative and nothing of the whole amount is lost to rounding |
| `MarketKeeper.Keeper.Send` | x/market/keeper/msg_server.go:87-92 | a transfer succeeds iff the source holds the coin, and changes nothing else |
| `MarketKeeper.Keeper.Burn` | x/market/keeper/msg_server.go:94-98 | balance and supply shrink by exactly the coin |
| `MarketKeeper.Keeper.Mint` | x/market/keeper/msg_server.go:111-115 | balance and supply grow by exactly the coin |
| `MarketKeeper.Keeper.ApplySwapToPool` | x/market/keeper/swap.go:15-46 | the stored delta after a swap, unchanged on an error and between Terra denoms |
| `MarketKeeper.Keeper.SettleSwap` | x/market/keeper/msg_server.go:87-131 | the error of the first transfer that fails, or every balance and supply moved by exactly the swap |
| `MarketKeeper.Keeper.HandleSwapRequest` | x/market/keeper/msg_server.go:60-152 | succeeds exactly under a condition on the state before, with the receipt, delta, balances and supplies it leads to; otherwise the error is the first failure in the order of the source |
| `MarketKeeper.Keeper.Swap` | x/market/keeper/msg_server.go:60-131 | burns exactly the offer, mints exactly the whole spread-free amount split between receiver and oracle account, leaves the market account as it was, delivers the simulated coin; a failure changes nothing |
| `MarketKeeper.Keeper.ReplenishPools` | x/market/keeper/keeper.go:82-93 | the stored delta moves towards zero without crossing it, and stays iff its scaled magnitude is below the period |
| `MarketExact.LunaToTerra` | x/market/keeper/swap.go:95-131 | in exact arithmetic a Luna to Terra swap leaves at least cp / (lunaPool + offer) in the Terra pool |
| `MarketExact.LunaToTerraExact` | x/market/keeper/swap.go:95-131 | above the minimum spread it leaves exactly that |
| `MarketExact.TerraToLunaExact` | x/market/keeper/swap.go:15-46 | a Terra to Luna swap adds exactly the base value of its offer to the Terra pool |
| `MarketExact.ReplenishExact` | x/market/keeper/keeper.go:82-93 | replenishing takes exactly one part of the recovery period off the delta, towards zero and never across it |
| `MarketExact.PoolStaysPositive` | x/market/keeper/swap.go:15-131 | over every run of swaps at any prices and of block ends, from delta zero, the Terra pool stays positive and no division is undefined |
| `MarketRounding.PayoutBound` | x/market/keeper/swap.go:117-128 | for the base denom the payout exceeds the constant-product amount by less than the rounding of spread and fee |
| `MarketRounding.TakenBound` | x/market/keeper/swap.go:28-37 | for any other denom, what is taken out of the pool after both conversions exceeds it by less than those roundings and two more |
| `MarketRounding.PoolAfterSwap` | x/market/keeper/swap.go:15-131 | every quoted and settled swap of Luna for any Terra denom leaves the pool of the constant product, short of at most the roundings |
| `MarketRounding.PoolPositiveWithinBound` | x/market/keeper/swap.go:15-131 | for every denom asked, while the pool left by the constant product outweighs the roundings, the pool stays positive |
| `MarketRounding.FixedPoolStaysPositive` | x/market/keeper/swap.go:15-131 | over every run of fixed-point swaps within that bound and of block ends, from delta zero, the pool stays positive |
| `MarketRounding.OverdrawnPool` | x/market/keeper/swap.go:95-131 | a concrete valid swap that takes the fixed-point pool below zero |
| `MarketRounding.OverdrawnByConversion` | x/market/keeper/swap.go:136-157 | a concrete valid swap of Luna worth 2.5 base units that takes a pool of 1.6 below zero, through the conversions of a denom of the smallest rate |
| `Fees.OracleTxUntaxed` | custom/auth/ante/fee_tax.go:22-81 | a transaction of oracle messages only is never taxed, so skipping its fee check loses no tax |
| `Fees.TaxesAddUp` | custom/auth/ante/fee_tax.go:22-81 | taxes and refundable taxes are, in every denom, the sums over all messages at any depth of authz nesting |
| `Fees.CeilNonNegative` | custom/auth/ante/fee.go:249-258 | a required gas fee is the least whole amount that covers price times gas |
| `Fees.GasFeeOf` | custom/auth/ante/fee.go:249-258 | so is each gas fee, and a denom without a price has none |
| `Fees.CheckTxFee` | custom/auth/ante/fee.go:231-312 | in amounts: reverse charged iff some tax is positive and some denom's tax exceeds the fee, or gas is asked and no priced denom reaches it after tax; refunded iff something is refundable, it fits what the tax leaves in every denom, and gas is still met; the remaining fee is the fee without both; refused iff that misses the gas |
| `Fees.TaxExact` | custom/auth/ante/fee.go:260-278 | the reverse charge alone, as an if and only if over the amounts of fee, taxes and gas fees |
| `Fees.DecideExact` | custom/auth/ante/fee.go:260-303 | reverse charge, refund and the remaining amount of every denom, in amounts |
| `Fees.GasAloneDecides` | custom/auth/ante/fee.go:260-303 | neither tax nor refund can make a fee fail: the remaining fees cover gas iff the fee as paid does |
| `Fees.RaiseToTaxes` | custom/auth/ante/fee.go:128-145 | in simulation each denom is raised to the larger of fee and tax |
| `Fees.TakeRefunds` | custom/auth/ante/fee.go:183-196 | each refundable coin is taken off where enough is left, in any order |
| `Fees.PassesAgree` | custom/auth/ante/fee.go:60-84 | outside simulation the coins deducted are those checked against gas, fee = deducted + tax unless reverse charged + refund if granted, and the subtraction of the tax never goes negative |
| `Fees.ChooseTaxes` | custom/auth/ante/fee.go:60-84 | what is handed to the second pass follows the decision of the first; refused iff the fee as paid reaches the gas fee in no priced denom |
| `Fees.Decorator.DeductFees` | custom/auth/ante/fee.go:213-225 | succeeds iff the account holds the fees, and moves exactly them to the collector |
| `Fees.Decorator.MintTo` | custom/auth/ante/fee.go:154-166 | the account gains exactly the minted coins |
| `Fees.Decorator.TopUp` | custom/auth/ante/fee.go:127-168 | simulation mints exactly what the tax adds to the fee, and the raised fee is never below the tax |
| `Fees.Decorator.DeductFrom` | custom/auth/ante/fee.go:178-206 | succeeds iff the source can pay the fee without tax and refunds, and takes exactly that |
| `Fees.Decorator.CheckDeductFee` | custom/auth/ante/fee.go:96-211 | the base fee splits into deducted, tax and refund without remainder, in and outside simulation; success exactly if grant, account and balance allow it |
| `Fees.Decorator.AnteHandle` | custom/auth/ante/fee.go:45-94 | accepted exactly if gas is set, the fee meets the gas fee and every balance covers the fee less tax due and refund; then the tax left for later, the reverse charge and the refund are those the amounts call for, and the rest of the fee reaches the collector |
| `Mempool.IndexedPush` | app/mempool/mempool_fifo.go:83-90 | queue and map stay in bijection after a push iff the key was new |
| `Mempool.IndexedRemove` | app/mempool/mempool_fifo.go:169-180 | dropping an element and its key keeps queue and map in bijection |
| `Clist.List.PushBack` | app/mempool/mempool_fifo.go:83-90 | linking an element behind the tail appends it to the sequence the list stands for, and keeps the list well linked |
| `Clist.List.Remove` | app/mempool/mempool_fifo.go:169-180 | joining the neighbours, or the ends, past an element takes exactly it out of that sequence and keeps the list well linked |
| `Mempool.PendingOfSnapshot` | app/mempool/mempool_fifo.go:95-155 | consuming a snapshot yields the oracle queue, then the regular queue, each element once, also with a key in both |
| `Mempool.Snapshot` | app/mempool/mempool_fifo.go:103-114 | walking a queue from its front copies its keys in order, and its map |
| `Mempool.FifoIterator.Next` | app/mempool/mempool_fifo.go:131-155 | yields the first pending element, or ends iff none is pending |
| `Mempool.FifoMempool.constructor` | app/mempool/mempool_fifo.go:46-60 | the new pool is empty and consistent |
| `Mempool.FifoMempool.Insert` | app/mempool/mempool_fifo.go:68-93 | the error, or the transaction linked behind the queue of its kind; the pool stays consistent and within its limit iff the key was new |
| `Mempool.FifoMempool.Remove` | app/mempool/mempool_fifo.go:161-183 | unlinks exactly the transaction with that key from its queue, the rest keeps its order; the error iff there is none |
| `Mempool.FifoMempool.CountTx` | app/mempool/mempool_fifo.go:185-189 | the length of both queues, never above the limit |
| `Mempool.FifoMempool.Select` | app/mempool/mempool_fifo.go:95-122 | an iterator of its own over oracle queue and regular queue as of now |
| `Mempool.FetchAndRemoveAll` | app/mempool/mempool_fifo.go:95-183 | selecting and removing each transaction as it comes yields all of them in order and empties the pool |
| `Mempool.FetchDespiteRemovals` | app/mempool/mempool_fifo.go:95-183 | whatever batches are removed before each step, iteration yields the transactions of the moment of Select, once and in order |
| `DynComm.VotingPowerMonotone` | x/dyncomm/keeper/dyncomm.go:9-17 | the rounded voting power is non-negative and grows with the tokens; `DynComm.VotingPowerExact` has its value |
| `DynComm.VotingPowerExact` | x/dyncomm/keeper/dyncomm.go:9-17 | totalPower * vp <= 100 * 10^18 * (tokens / powerReduction) < totalPower * (vp + 100) |
| `DynComm.QuadraticExact` | x/dyncomm/keeper/dyncomm.go:24-34 | the quadratic is (x - maxZero) * (x / slopeVpImpact + slopeBase), within explicit bounds from both sides for its two roundings |
| `DynComm.FloorExact` | x/dyncomm/keeper/dyncomm.go:21-42 | the minimum commission is the truncated hundredth of that quadratic where it lies between the staking minimum and the cap, and otherwise the nearer of them, the minimum if it exceeds the cap |
| `DynComm.QuadraticBelow` | x/dyncomm/keeper/dyncomm.go:24-34 | below its zero point the rounded quadratic is not positive |
| `DynComm.QuadraticMonotone` | x/dyncomm/keeper/dyncomm.go:24-34 | from the zero point on it only grows |
| `DynComm.FloorInRange` | x/dyncomm/keeper/dyncomm.go:21-42 | the minimum commission lies between the staking minimum and the larger of the cap and that minimum |
| `DynComm.FloorMonotone` | x/dyncomm/keeper/dyncomm.go:21-42 | more tokens never mean a lower minimum commission |
| `DynComm.FilterMsgs` | x/dyncomm/ante/ante.go:50-103 | accepts iff every edit at any depth respects its minimum and no stale error is reported |
| `DynComm.EditsAllowedIff` | x/dyncomm/ante/ante.go:50-103 | that is so iff no edit reached at any depth intends a rate below the minimum stored for its validator |
| `DynComm.NoStaleError` | x/dyncomm/ante/ante.go:50-84 | without an undecodable packet no stale error is reported |
| `DynComm.StaleErrorExample` | x/dyncomm/ante/ante.go:50-84 | an undecodable packet and then an undecodable authz message are refused, in the other order they are not |
| `DynCommTxs.EffectAllowed` | x/dyncomm/ante/ante.go:50-103 | every edit that takes effect, at any depth, was checked against its minimum by a filter that passes |
| `DynCommTxs.EffectsReached` | x/dyncomm/ante/ante.go:50-103 | only edits and creations the filter reaches take effect, and all of them if no packet fails |
| `DynCommTxs.RateAfter` | x/dyncomm/post/post.go:36-69 | after a transaction a validator has the rate of the last message that set it, or the one it had |
| `DynCommTxs.RatesWithinMaximum` | x/dyncomm/post/post.go:49-69 | every rate set in a transaction lies between zero and the maximum rate its validator ends with |
| `DynCommTxs.RecordedAt` | x/dyncomm/post/post.go:36-69 | the post handler sets the target to the last top-level rate and keeps every minimum |
| `DynCommRuns.Keeper.SetDynCommissionRate` | x/dyncomm/keeper/dyncomm.go:44-62 | sets the minimum and keeps the target |
| `DynCommRuns.Keeper.SetTargetCommissionRate` | x/dyncomm/keeper/dyncomm.go:64-82 | sets the target and keeps the minimum |
| `DynCommRuns.Keeper.UpdateValidatorMinRates` | x/dyncomm/keeper/dyncomm.go:126-159 | the validator pays the larger of target and new minimum, which is stored and may push the maximum rate |
| `DynCommRuns.Keeper.UpdateAllBondedValidatorRates` | x/dyncomm/keeper/dyncomm.go:161-175 | in any order, every bonded validator is updated once and no other |
| `DynCommRuns.Keeper.RecordTargets` | x/dyncomm/post/post.go:36-69 | the rates of the top-level edits and creations become targets, in order |
| `DynCommRuns.Perform` | x/dyncomm/post/post.go:49-69 | messages are performed in order, and none of them if one is not acceptable |
| `DynCommRuns.Keeper.DeliverTx` | x/dyncomm/ante/ante.go:50-103 | a transaction of nested messages passes iff the filter and staking let it; then rates and targets are those of its messages, otherwise nothing changes |
| `DynCommRuns.StoresKept` | x/dyncomm/keeper/dyncomm.go:44-82 | epochs never change a target; nothing else changes a minimum |
| `DynCommRuns.EpochSettlesRates` | x/dyncomm/keeper/dyncomm.go:126-175 | right after an epoch each bonded validator pays the larger of its target and its minimum |
| `DynCommRuns.LoneEdit` | x/dyncomm/post/post.go:49-61 | an edit between the stored minimum and the maximum rate passes, sets the rate and becomes the target |
| `DynCommRuns.NestedEdit` | x/dyncomm/post/post.go:36-61 | the same edit inside an authz message passes and sets the rate too, and the target stays |
| `DynCommRuns.AboveMinimumKeptIff` | x/dyncomm/ante/ante.go:50-103 | a step keeps all rates at or above their minima iff no validator ends its transaction with a creation rate below a stale one |
| `DynCommRuns.BelowMaximumKeptIff` | x/dyncomm/keeper/dyncomm.go:126-159 | a step keeps rates and targets at or below the maximum rates iff no validator created out of sight of the post handler meets a higher target |
| `DynCommRuns.AlwaysAboveMinimumIff` | x/dyncomm/ante/ante.go:50-103 | over every run of epochs and transactions rates stay at or above their minima iff no creation ends up below a stale one |
| `DynCommRuns.AlwaysBelowMaximumIff` | x/dyncomm/post/post.go:36-69 | over every run rates stay at or below the maximum rates iff no creation out of sight of the post handler meets a higher target |
| `DynCommRuns.CommissionsInRange` | x/dyncomm/keeper/dyncomm.go:126-175 | in every run without removals each rate stays between its stored minimum and its maximum rate |
| `DynCommRuns.RecreatedBelowMinimum` | x/dyncomm/post/post.go:63-69 | removal and re-creation below the old minimum breaks it at once |
| `Varint.SovIsLength` | x/oracle/types/oracle.pb.go:739-741 | the size from the bit length is the number of bytes of a varint ("Base 128 Varints" of the Protocol Buffers Encoding specification) |
| `Varint.EncodeMeaning` | x/oracle/types/oracle.pb.go:627-637 | the bytes are the groups of seven bits of the value, least significant first, all but the last marked, without a superfluous one |
| `Varint.EncodeVarint` | x/oracle/types/oracle.pb.go:627-637 | writes exactly those bytes just below the offset and nothing else |
| `Varint.DecodeVarint` | x/oracle/types/oracle.pb.go:1144-1157 | the shifting loop computes the value byte by byte, with the overflow and end-of-input errors |
| `Varint.VarintRoundTrip` | x/oracle/types/oracle.pb.go:627-637 | reading a written varint gives its value back and stops right behind it |
| `PrevoteCodec.SizeIsLength` | x/oracle/types/oracle.pb.go:685-703 | Size is the length of the encoding |
| `PrevoteCodec.MarshalToSizedBuffer` | x/oracle/types/oracle.pb.go:516-541 | filling the buffer backwards leaves the encoding at its end and the rest untouched |
| `PrevoteCodec.Marshal` | x/oracle/types/oracle.pb.go:501-509 | the result is the encoding and exactly Size bytes long |
| `PrevoteCodec.StringDecodes` | x/oracle/types/oracle.pb.go:1171-1198 | a length-delimited value anywhere in the input reads back as its bytes and ends right behind them |
| `PrevoteCodec.SkipOracle` | x/oracle/types/oracle.pb.go:1503-1580 | the cursor loop over fields and groups ends on every input and computes the recursive skip |
| `PrevoteCodec.Unmarshal` | x/oracle/types/oracle.pb.go:1138-1270 | the cursor loop ends on every byte string and computes the parse of its fields in order |
| `PrevoteCodec.ParseEncoded` | x/oracle/types/oracle.pb.go:1138-1270 | an encoding anywhere in the input sets exactly its non-default fields and is read to its end |
| `PrevoteCodec.RoundTrip` | x/oracle/types/oracle.pb.go:1138-1270 | parsing the encoding of any message gives the message back |
| `PrevoteCodec.ConcatenationMerges` | x/oracle/types/oracle.pb.go:1138-1270 | concatenated encodings parse as the merged message, later fields winning ("Message Structure" of the Protocol Buffers Encoding specification) |
| `UnknownFields.SkipWire` | x/oracle/types/oracle.pb.go:1503-1580 | a field of any wire type, with groups nested to any depth, is passed over to exactly its end |
| `UnknownFields.ParseForeign` | x/oracle/types/oracle.pb.go:1250-1262 | a field the message does not have leaves it alone and moves the cursor to the end of the field |
| `UnknownFields.UnknownFieldsIgnored` | x/oracle/types/oracle.pb.go:1138-1270 | any stream of encodings with unknown fields in between parses as its encodings merged ("Message Structure" of the Protocol Buffers Encoding specification) |
| `PrevoteCodec.EncodingInjective` | x/oracle/types/oracle.pb.go:516-541 | different messages have different encodings |

## Left out

- MarketRounding.PoolPositiveWithinBound: sufficient and not necessary; which fixed-point swaps beyond the bound keep the pool positive depends on the remainder of every single rounding.
- Ballots.StandardDeviation: the source recovers from an overflow panic with a deviation of zero; bit-length limits are not modelled.
- Ballots.SortBallot: sorts a sequence by insertion; that the source swaps elements of a slice in place is not captured, callers learn only that the result is some sorted permutation.
- OracleKeeper.Keeper.SlashAndResetMissCounters: says who is slashed and jailed, not the slashed amount and the height it is slashed at.
- OracleKeeper.Keeper.TallyPeriod: for named targets, an invariant of the keeper; TallyLoops.TallyVotes covers the others.
- OracleKeeper.Keeper.EndPeriod: for named targets likewise.
- OracleKeeper.Keeper.EndBlocker: for named targets likewise.
- DynCommRuns.Keeper.DeliverTx: staking asks more of an edit or creation than that its rate lies between zero and the maximum rate (the minimum commission, the change per day); whether a transaction fails for such a reason is a parameter, and so is whether the messages of a packet take effect. Messages the filter does not look into hold no edits.
- Clist.List.Remove: the waiting channels and the detached flag of a removed element, which serve concurrent readers.
- The computation of taxes and exemptions and the treasury, tax and alliance keepers: a message carries its tax as given coins.
- Accounting inside a fee grant: the grant is allowed or refused.
- getTxPriority: the priority of a transaction.
- The float square root of the standard deviation, bech32, hashing, JSON, hex decoding, and the internals of bank, staking, slashing and distribution: parameters, balance maps and validator records stand for them.
- Bit-length panics of `sdk.Int` and `sdk.Dec`, and 64-bit overflow of powers and weights; 64-bit wrap-around is modelled in the slash window and in the codec.
- Bank metadata written by ApplyWhitelist, events, logging, telemetry and gas metering.
- Locks and concurrent use of the mempool.
- The remaining messages of the generated codec files, which repeat the same code.
- Genesis import and export, feeder delegation, queries, CLI, upgrade handlers, application wiring and simulation: plumbing that would only add easy members.
