# betacorn: a model of the ACORN dice contract

betacorn is an EOSIO contract that runs a commit–reveal dice game paid in the ACORN token.

- **Hosts.** A host deposits a bankroll by transferring ACORN with the memo `deposit`. The host then publishes commitments, which are SHA-256 hashes of secret 32-byte sources.
- **Players.** A player bets by transferring ACORN with the memo `odd` or `even`. The contract matches the bet to the first host, in account-table order, whose balance covers 100 times the bet and who has an open offer. It stakes the bet from that host's bankroll and fills the placeholder match that `commit` preallocated.
- **Reveal.** The host reveals the source. The lowest bit of its last byte decides the winner. The winner receives twice the bet less one shell. The loser receives one shell.
- **Timeouts.** A player whose match is past its deadline can `collect` twice the bet.

The contract keeps three tables:

- `accounts`: host bankrolls, indexed by owner.
- `games`: open offers, keyed by the 64-bit hash prefix of the commitment and indexed by host.
- `matches`: placeholders and matches in play, keyed by the same prefix and indexed by player.

The model consists of these modules:

- `Sets` (sets.dfy) holds two facts about finite sets that the index walks use: a nonempty set has a member, and a nonempty set of integers has a least element.
- `Tables` (tables.dfy) holds the constants, the table rows, their keys and the 32-bit deadline arithmetic.
- `Ledger` (ledger.dfy) holds the account rows as a sequence sorted by owner. It defines the pure decisions of `add_balance` (`Credit`) and `sub_balance` (`Debit`) against the bankroll map those rows denote.
- `Memo` (memo.dfy) holds the memo dispatch of `acorn_transfer`.
- `Settlement` (settlement.dfy) holds the outcome bit and the payouts of `reveal`.
- `Index` (index.dfy) models the secondary-index walks:
  - the byhost scan of the zero-balance cascade;
  - the byplayer scan of `collect`;
  - the account scan of `do_bet`.

  It states them as sets and sequences, with the step lemmas the loops use.
- `Betacorn` (betacorn.dfy) holds the contract itself. The class `Dice` has the tables as fields, and every action is a method that changes them in place. Each action that can fail returns an `Outcome`: it either completes (`Done`) or aborts with the reason (`Abort`), and an abort leaves every field unchanged. `collect` has no failing check. Its method returns only the ghost order in which it paid the erased matches. The class invariant `Valid` states three things:
  - the account rows are sorted and every bankroll is positive;
  - every game has a placeholder match under the same key, and every placeholder has a game;
  - every open offer belongs to a host with a bankroll.

SHA-256 and `get_hash_prefix` are constant function-valued fields of the contract (`sha256`, `hashPrefix`). They are uninterpreted but deterministic. The current time is a parameter `now`. Outbound transfers (`pay`) are appended to the `payments` log.

## Model

| member | source | states |
|---|---|---|
| Tables.ConstantsOrdered | betacorn.hpp:54-61 | MIN_BALANCE > MIN_TRANSFER_SHELLS > ACORN_SHELL > 0. NULL_GUESS is neither valid guess. A host at the minimum balance covers bets up to 5000 shells, which is at least the minimum transfer. |
| Tables.AccountKeysCollide | betacorn.hpp:68-76 | Every account row has the same primary key, the symbol code, whoever owns it. |
| Tables.MirrorSharesKeys | betacorn.hpp:91-134 | A game and the placeholder `commit` creates beside it have the same primary key. The game is indexed under its host, and the placeholder is a placeholder indexed under the empty name. |
| Tables.DeadlineAfter | betacorn.cpp:236 | The deadline is now + 300 when that fits in 32 bits. Otherwise it wraps to a value before now. |
| Ledger.Find | betacorn.cpp:283-284 | The byowner lookup finds a row owned by the owner, or reports that no row is. |
| Ledger.FindUnique | betacorn.cpp:283-284 | In sorted rows, the lookup finds exactly the row that holds the owner. |
| Ledger.BankrollKeys | betacorn.cpp:306-308 | An owner has a bankroll exactly when the lookup finds a row. |
| Ledger.BankrollAt | betacorn.cpp:298-300 | In sorted rows, each row's balance is its owner's bankroll. |
| Ledger.InsertByOwner | betacorn.cpp:293-296 | Inserting a new owner's row keeps the rows sorted. It adds exactly that row. |
| Ledger.BankrollInsert | betacorn.cpp:293-296 | Inserting a new owner's row adds that owner's balance to the bankroll map. Every other entry is unchanged. |
| Ledger.BankrollUpdate | betacorn.cpp:298-300 | Changing one row's balance keeps the rows sorted. It changes only that owner's bankroll. |
| Ledger.BankrollRemove | betacorn.cpp:315 | Erasing a row keeps the rows sorted. It removes only that owner from the bankroll map. |
| Ledger.Credit | betacorn.cpp:281-302 | `add_balance` aborts exactly when the owner has no row, the minimum is enforced and value < MIN_BALANCE. Otherwise the owner's bankroll grows by value (from 0 for a new row) and every other bankroll is unchanged. |
| Ledger.CreditOpensAccount | betacorn.cpp:285-296 | A first deposit of at least MIN_BALANCE creates the owner's row with exactly that balance. |
| Ledger.CreditAsWritten | betacorn.cpp:293-296 | With rows keyed by the symbol code, as written: a table of at most one row stays at most one row. A successful credit leaves a row for the owner. |
| Ledger.SecondHostDepositAborts | betacorn.hpp:72 | As written, a second host's first deposit of MIN_BALANCE aborts on the duplicate primary key. The corrected ledger accepts it. |
| Ledger.Debit | betacorn.cpp:304-346 | `sub_balance` aborts when the owner has no row, or when value exceeds the balance. If the result is zero, the owner's row is removed. Otherwise the balance drops by exactly value. With the minimum enforced, a covered debit succeeds exactly when it empties the account, or when it leaves at least MIN_BALANCE and moves at least MIN_TRANSFER_SHELLS. It fails with RemainderBelowMinimum when a nonzero remainder is under MIN_BALANCE. Failing that, it fails with BelowMinimumWithdrawal when value is under MIN_TRANSFER_SHELLS. Without the minimum, every covered debit succeeds. |
| Ledger.DebitInPlace | betacorn.cpp:342-344 | A debit that leaves a positive balance rewrites only that row, in place. |
| Ledger.LedgerKeepsPositive | betacorn.cpp:281-346 | Credits and debits of positive amounts keep every bankroll positive. |
| Memo.ParseMemo | betacorn.cpp:191-199 | A memo is accepted exactly when it is one of the spellings of a command. Accepted bets carry guess 0 or 1. |
| Memo.ParseInvertsSpellings | betacorn.cpp:191-196 | Each spelling of each command parses back to that command: "odd"/"Odd"/"ODD"/"1" to a bet on 1, "even"/"Even"/"EVEN"/"0" to a bet on 0, and "deposit"/"Deposit"/"DEPOSIT" to a deposit. |
| Memo.NotCaseInsensitive | betacorn.cpp:191-198 | Only the exact spellings are accepted. Other capitalisations, trailing spaces and the empty memo are rejected. |
| Memo.AcceptedMemosFit | betacorn.cpp:184 | Every accepted memo is within the 256-byte limit. |
| Settlement.OutcomeBit | betacorn.cpp:115 | The outcome is 0 or 1, the parity of byte 31 of the source. |
| Settlement.Settle | betacorn.cpp:104-124 | Player and host payouts always sum to 2 * bet. The player wins exactly when the outcome bit equals the guess, and then gets 2 * bet - 1 while the host gets 1. On a loss, the player gets 1 with memo "Lose" and the host gets 2 * bet - 1. |
| Settlement.PayoutsPositive | betacorn.cpp:108-124 | With a positive bet, both payouts are positive. |
| Settlement.ParityDecides | betacorn.cpp:115-116 | A bet on 1 wins exactly on an odd last byte. A bet on 0 wins exactly on an even one. |
| Index.FirstGame | betacorn.cpp:219-224 | `byhost.find(owner)` yields an offer of that host with the least key, or none when the host has no offer. |
| Index.CascadeScope | betacorn.cpp:321-327 | The offers the zero-balance cascade visits are offers in the table. |
| Index.CascadeTakesOwnerOffers | betacorn.cpp:321-327 | The cascade takes every offer of the emptied host. It takes no offer of a host that sorts before them. |
| Index.CascadeTakesLaterHosts | betacorn.cpp:322-327 | When the emptied host has an offer, the cascade also takes every offer of every host that sorts after them. The loop runs to the end of the byhost index. |
| Index.FirstByPlayer | betacorn.cpp:156-158 | The byplayer walk visits the least remaining match in (player, key) order. |
| Index.CollectScope | betacorn.cpp:152-156 | The walk starts at `find(player)` and runs to the end of the byplayer index. It covers matches in the table only. |
| Index.Expired | betacorn.cpp:152-172 | `collect` erases only matches past their deadline. It erases every expired match of the player. |
| Index.CollectWithoutMatchesIsNoop | betacorn.cpp:152-156 | When the player has no match, `collect` erases nothing. |
| Index.CollectTakesLaterPlayers | betacorn.cpp:156-167 | When the player has a match, `collect` also erases every expired match of every player that sorts after them. |
| Index.CollectSkipsPlaceholders | betacorn.cpp:156-167 | When player is not the empty name, `collect` erases no placeholder. |
| Index.TimeoutPayments | betacorn.cpp:164 | Each erased match pays the caller 2 * bet with memo "Win! (Timeout)", one payment per match, in walk order. |
| Index.WalkStart | betacorn.cpp:152 | The loop invariants of `collect` hold when the walk starts at `find(player)`. |
| Index.WalkErasedExpired | betacorn.cpp:161-167 | Erasing an expired match preserves the invariant on what has been erased. |
| Index.WalkErasedRunning | betacorn.cpp:169-170 | Skipping a running match preserves the invariant on what has been erased. |
| Index.WalkOrderExpired | betacorn.cpp:161-167 | Erasing the least remaining expired match extends the payment order and keeps it sorted. |
| Index.WalkOrderRunning | betacorn.cpp:169-170 | Skipping a running match leaves the payment order unchanged. |
| Index.TimeoutPaymentsAppend | betacorn.cpp:164 | One more erased match appends exactly one timeout payment. |
| Index.WalkEnd | betacorn.cpp:156-172 | At the end of the walk, exactly the expired matches in scope are erased. They were paid in byplayer order. |
| Index.FirstEligible | betacorn.cpp:208-245 | `do_bet` takes the first account in table order whose balance / 100 covers the bet and that has an open offer. It takes none exactly when no account qualifies. |
| Index.MaxBankroll | betacorn.cpp:247-257 | The recorded maximum bounds the balance of every host with an open offer. It is the balance of one of them, or 0 when none has an offer. |
| Index.NoBetsError | betacorn.cpp:262-270 | The refusal reports no bets when the largest bankroll / 100 is under MIN_TRANSFER_SHELLS. Otherwise it reports the maximum bet, the largest bankroll divided by 100 and rounded down. |
| Index.ReportedMaximumIsTight | betacorn.cpp:262-270 | When nobody can take the bet, the reported maximum bet is below the bet. Every host with an offer covers at most that maximum. A reported maximum is at least MIN_TRANSFER_SHELLS. |
| Index.MatchedHostStaysFunded | betacorn.cpp:214-227 | A host whose balance / 100 covers the bet keeps at least 99 times the bet after staking it. |
| Betacorn.AddOfferKeepsMirror | betacorn.cpp:42-65 | Adding an offer and its placeholder under a fresh, non-reserved key keeps every game mirrored by a placeholder and every placeholder by a game. |
| Betacorn.EraseOffersKeepsMirror | betacorn.cpp:82-87 | Erasing a set of offers together with their placeholders keeps the mirror. |
| Betacorn.EraseSettledKeepsMirror | betacorn.cpp:144 | Erasing matches in play keeps the mirror. |
| Betacorn.FillOfferKeepsMirror | betacorn.cpp:230-241 | Filling an offer's placeholder with a bet and erasing the offer keeps the mirror. |
| Betacorn.FundedGrows | betacorn.cpp:293-300 | If no bankroll disappears, every open offer still has a funded host. |
| Betacorn.CascadeKeepsFunded | betacorn.cpp:314-327 | Removing a host's bankroll together with the cascade's offers leaves every remaining offer funded. |
| Betacorn.Dice.constructor | betacorn.hpp:68-134 | The tables start empty, and the invariant holds. |
| Betacorn.Dice.AddBalance | betacorn.cpp:281-302 | The action aborts with BelowMinimumBalance exactly when a first deposit under an enforced minimum is refused. Otherwise the owner's bankroll grows by value. Offers, matches and payments are unchanged, and the invariant is kept. |
| Betacorn.Dice.SubBalance | betacorn.cpp:304-346 | The outcome and the new rows are those of `Debit`. An account emptied to zero erases the cascade's offers and their placeholders. Otherwise offers and matches are unchanged. |
| Betacorn.Dice.EraseOffers | betacorn.cpp:323-327 | The cascade loop erases exactly the given offers and their matches. |
| Betacorn.Dice.Commit | betacorn.cpp:19-66 | The action aborts with NoBankroll, ReservedSource or DuplicateCommitment, each exactly in its case and in that order. It completes exactly when none of them applies. On success, it adds the game and the placeholder (guess NULL_GUESS, empty player, bet 0, deadline now) under `hashPrefix(commitment)`. |
| Betacorn.Dice.CancelCommit | betacorn.cpp:68-88 | The action aborts with CommitmentNotFound when no match has the key, and with AlreadyInPlay when the match is in play. It succeeds exactly when an offer exists, and then erases the offer and its placeholder. It does not check that the caller is the host. |
| Betacorn.Dice.Reveal | betacorn.cpp:90-145 | The action aborts with CommitmentMismatch, then CommitmentNotFound. It completes exactly when the source hashes to the commitment and a match has its key. On success, it erases the match. For a placeholder, it erases the offer and pays nothing. For a match in play, it pays the player their `Settle` share and credits the host the rest. |
| Betacorn.Dice.PayOut | betacorn.cpp:104-131 | It appends the player's payment and credits the host's bankroll by the host's share. Offers and matches are unchanged. |
| Betacorn.Dice.Collect | betacorn.cpp:147-173 | It erases exactly `Expired(...)` and appends one "Win! (Timeout)" payment of 2 * bet per erased match, in byplayer order. Accounts and offers are unchanged. |
| Betacorn.Dice.ScanHosts | betacorn.cpp:205-260 | The scan loop stops at `FirstEligible`. When nobody qualifies, it carries the largest bankroll among hosts with an offer. |
| Betacorn.Dice.DoBet | betacorn.cpp:202-271 | If nobody qualifies, the action aborts with the reported maximum bet and changes nothing. Otherwise it debits the first eligible host by exactly the bet, and fills that host's first offer's placeholder with guess, player, bet and deadline now + 300 (32-bit). The offer is erased. |
| Betacorn.Dice.Stake | betacorn.cpp:221-244 | It debits the eligible host's row in place, fills the placeholder of the host's first offer and erases that offer. |
| Betacorn.Dice.FillOffer | betacorn.cpp:230-241 | It fills the placeholder under the offer's key and erases the offer. Accounts and payments are unchanged. |
| Betacorn.Dice.Withdraw | betacorn.cpp:5-17 | The action aborts on the wrong symbol or a non-positive quantity, then as `Debit` with the minimum enforced. On success, it pays the quantity to the owner with an empty memo. |
| Betacorn.Dice.AcornTransfer | betacorn.cpp:175-200 | Transfers from the contract itself are ignored. Otherwise the action aborts on the wrong symbol, a quantity under 100, a memo over 256 or an unknown memo, in that order. Deposit memos credit the sender, subject to the minimum for a new row. A bet memo aborts with the reported maximum when no host qualifies. Otherwise it has `do_bet`'s effect: the first eligible host is debited by exactly the bet, that host's first offer is erased, and its placeholder is filled with the memo's guess, the sender, the bet and the deadline. Payments are unchanged. |
| Betacorn.CommitThenCancel | betacorn.cpp:19-88 | A successful commit followed by a cancel of the same commitment succeeds and restores every table. |

## Left out

- The `apply` dispatcher (betacorn.cpp:348-357) is not modelled. Each action is a method of `Dice`.
- `require_auth` (betacorn.cpp:6, 20, 69) is not modelled. It only authorises the caller and does not change state.
- `pay` (betacorn.cpp:273-279) sends an inline transfer on the token contract. That contract is not part of this model. The transfer is recorded in `payments` and assumed to succeed.
- SHA-256 and `assert_sha256` (betacorn.cpp:94) are an uninterpreted function parameter. The same holds for the memory layout behind `get_hash_prefix` (betacorn.hpp:147-150). `ZERO_SOURCE` keeps its literal value.
- `current_time_point` (betacorn.hpp:152) is replaced by the `now` parameter.
- Assets are not modelled:
  - amounts are unbounded integers of shells;
  - `asset::is_valid` and asset overflow checks are not modelled;
  - the symbol check is a boolean `isAcorn`.
- The RAM payers of `emplace` and `modify` are not modelled. They have no effect on behaviour.
- Betacorn.Dice.DoBet: the refusal carries the maximum bet as an integer rather than the formatted message text of betacorn.cpp:267-268.
- Betacorn.Dice.AcornTransfer: the memo length counts characters, so it equals the byte count only for single-byte characters.
- Betacorn.Dice.Collect: it ensures the invariant only when player is not the empty name. With the empty name, the walk also erases expired placeholders, which leaves their offers without a mirror.
- Betacorn.Dice.Collect: the walk runs over a local copy of the matches and is stored back at the end. The loop takes the least remaining match in (player, key) order.
- Betacorn.Dice.EraseOffers: the cascade erases its offers in an unspecified order, and only the resulting tables are stated.
- The comment at betacorn.cpp:187-188 pairs "0" with odd and "1" with even. The model follows the code at lines 191-194, where "1" bets odd (guess 1) and "0" bets even (guess 0).
- The accounts table is modelled keyed by owner, which is what every lookup through the byowner index assumes. Ledger.CreditAsWritten keeps the as-written primary key only to exhibit the Finding below.

## Findings

| source | as written | input that shows it | evidently intended | confidence | as-written member | corrected member |
|---|---|---|---|---|---|---|
| betacorn.hpp:72 | `account::primary_key` returns the balance's symbol code, so every account row has the same primary key | one host holds a bankroll; a second host deposits MIN_BALANCE with memo "deposit", and `emplace` meets a duplicate primary key and aborts | accounts keyed by owner, so any number of hosts can hold a bankroll | not executed | Ledger.SecondHostDepositAborts | Ledger.CreditOpensAccount |
