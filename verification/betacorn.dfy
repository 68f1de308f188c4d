/**
 * The `dice` contract: its three tables (accounts, games, matches), the payments it issues and
 * its actions. Every action either completes or aborts; an abort leaves every table as it was.
 */
module Betacorn {
  import opened Tables
  import Ledger
  import opened Index
  import opened Sets
  import Memo
  import Settlement

  /** A match row is a placeholder with no player and no stake, or a game in play with a real bet. */
  predicate WellFormed(m: Match)
  {
    if IsPlaceholder(m) then m.player == NULL_NAME && m.bet == ZERO_ACORNS
    else (m.guess == 0 || m.guess == 1) && m.bet > 0
  }

  /** The accounts table is in owner order and every bankroll in it is positive. */
  ghost predicate LedgerValid(accounts: seq<Account>)
  {
    && Ledger.SortedByOwner(accounts)
    && forall o :: o in Ledger.Bankroll(accounts) ==> Ledger.Bankroll(accounts)[o] > 0
  }

  /**
   * The games and matches tables mirror each other: every open game has a placeholder match
   * under the same key and every placeholder a game; every key is its commitment's hash prefix
   * and the reserved key is never used.
   */
  ghost predicate Mirrored(hashPrefix: Checksum256 -> Key, games: map<Key, Game>, matches: map<Key, Match>)
  {
    && ZERO_SOURCE !in matches
    && (forall k :: k in matches ==> hashPrefix(matches[k].commitment) == k && WellFormed(matches[k]))
    && (forall k :: k in games ==>
          && k in matches && IsPlaceholder(matches[k])
          && matches[k].commitment == games[k].commitment && matches[k].host == games[k].host)
    && (forall k :: k in matches && IsPlaceholder(matches[k]) ==> k in games)
  }

  /** Every host with an open offer has a bankroll. */
  ghost predicate Funded(accounts: seq<Account>, games: map<Key, Game>)
  {
    forall k :: k in games ==> games[k].host in Ledger.Bankroll(accounts)
  }

  /** A new offer and its placeholder keep the tables mirrored. */
  lemma AddOfferKeepsMirror(hashPrefix: Checksum256 -> Key, games: map<Key, Game>, matches: map<Key, Match>,
                            commitment: Checksum256, host: Name, now: Time)
    requires Mirrored(hashPrefix, games, matches)
    requires hashPrefix(commitment) != ZERO_SOURCE && hashPrefix(commitment) !in matches
    ensures hashPrefix(commitment) !in games
    ensures Mirrored(hashPrefix, games[hashPrefix(commitment) := Game(commitment, host)],
                     matches[hashPrefix(commitment) := Placeholder(commitment, host, now)])
  {
  }

  /** Erasing open offers together with their placeholders keeps the tables mirrored. */
  lemma EraseOffersKeepsMirror(hashPrefix: Checksum256 -> Key, games: map<Key, Game>, matches: map<Key, Match>, s: set<Key>)
    requires Mirrored(hashPrefix, games, matches)
    requires s <= games.Keys
    ensures Mirrored(hashPrefix, games - s, matches - s)
  {
  }

  /** Erasing matches in play (never a placeholder) keeps the tables mirrored. */
  lemma EraseSettledKeepsMirror(hashPrefix: Checksum256 -> Key, games: map<Key, Game>, matches: map<Key, Match>, s: set<Key>)
    requires Mirrored(hashPrefix, games, matches)
    requires forall k :: k in s && k in matches ==> !IsPlaceholder(matches[k])
    ensures Mirrored(hashPrefix, games, matches - s)
  {
  }

  /** Filling an offer's placeholder with a bet and closing the offer keeps the tables mirrored. */
  lemma FillOfferKeepsMirror(hashPrefix: Checksum256 -> Key, games: map<Key, Game>, matches: map<Key, Match>,
                             key: Key, guess: int, player: Name, bet: int, deadline: Time)
    requires Mirrored(hashPrefix, games, matches)
    requires key in games && (guess == 0 || guess == 1) && bet > 0
    ensures key in matches
    ensures Mirrored(hashPrefix, games - {key},
                     matches[key := matches[key].(guess := guess, player := player, bet := bet, deadline := deadline)])
  {
  }

  /** A ledger change that removes no owner keeps every open offer funded. */
  lemma FundedGrows(before: seq<Account>, after: seq<Account>, games: map<Key, Game>)
    requires Funded(before, games)
    requires Ledger.Bankroll(before).Keys <= Ledger.Bankroll(after).Keys
    ensures Funded(after, games)
  {
  }

  /** After the zero-balance cascade no remaining offer belongs to the emptied owner. */
  lemma CascadeKeepsFunded(before: seq<Account>, after: seq<Account>, games: map<Key, Game>, owner: Name)
    requires Funded(before, games)
    requires Ledger.Bankroll(after) == Ledger.Bankroll(before) - {owner}
    ensures Funded(after, games - CascadeScope(games, owner))
  {
    CascadeTakesOwnerOffers(games, owner);
  }

  class Dice {
    /** The contract's own account. */
    const self: Name
    /** SHA-256 of a 32-byte source, the hash `reveal` checks a source against. */
    const sha256: Checksum256 -> Checksum256
    /** `get_hash_prefix`: the 64-bit key of a commitment in the games and matches tables. */
    const hashPrefix: Checksum256 -> Key

    /** The accounts table, in byowner order. */
    var accounts: seq<Account>
    var games: map<Key, Game>
    var matches: map<Key, Match>
    /** Every `pay` sent so far, oldest first. */
    var payments: seq<Payment>

    /** The hosts' bankrolls. */
    ghost function Balances(): map<Name, int>
      reads this
      requires Ledger.SortedByOwner(accounts)
    {
      Ledger.Bankroll(accounts)
    }

    /** The contract's table invariant. */
    ghost predicate Valid()
      reads this
    {
      LedgerValid(accounts) && Mirrored(hashPrefix, games, matches) && Funded(accounts, games)
    }

    constructor (self: Name, sha256: Checksum256 -> Checksum256, hashPrefix: Checksum256 -> Key)
      ensures Valid()
      ensures this.self == self && this.sha256 == sha256 && this.hashPrefix == hashPrefix
      ensures accounts == [] && games == map[] && matches == map[] && payments == []
    {
      this.self := self;
      this.sha256 := sha256;
      this.hashPrefix := hashPrefix;
      accounts := [];
      games := map[];
      matches := map[];
      payments := [];
    }

    /** `add_balance`: credits a host's bankroll, opening its row if it has none. */
    method AddBalance(owner: Name, value: int, enforceMin: bool) returns (r: Outcome)
      requires Valid() && value > 0
      modifies this
      ensures Valid()
      ensures r.Abort? <==> owner !in old(Balances()) && enforceMin && value < MIN_BALANCE
      ensures r.Abort? ==> r.error == BelowMinimumBalance && unchanged(this)
      ensures r.Done? ==> Balances() == old(Balances())[owner := Ledger.BalanceOf(old(accounts), owner) + value]
      ensures games == old(games) && matches == old(matches) && payments == old(payments)
    {
      var c := Ledger.Credit(accounts, owner, value, enforceMin);
      if c.Err? {
        return Abort(c.error);
      }
      Ledger.LedgerKeepsPositive(accounts, owner, value, enforceMin);
      FundedGrows(accounts, c.value, games);
      accounts := c.value;
      r := Done;
    }

    /**
     * `sub_balance`: debits a host's bankroll. Bringing it to exactly zero deletes the row and
     * cancels every open offer from the owner's first one in the byhost index to the end of it.
     */
    method SubBalance(owner: Name, value: int, enforceMin: bool) returns (r: Outcome)
      requires Valid() && value > 0
      modifies this
      ensures Valid()
      ensures var d := Ledger.Debit(old(accounts), owner, value, enforceMin);
        && (d.Err? ==> r == Abort(d.error) && unchanged(this))
        && (d.Ok? ==> r == Done && accounts == d.value && payments == old(payments))
      ensures r.Done? && owner !in Balances() ==>
        && games == old(games) - CascadeScope(old(games), owner)
        && matches == old(matches) - CascadeScope(old(games), owner)
      ensures r.Done? && owner in Balances() ==> games == old(games) && matches == old(matches)
    {
      var d := Ledger.Debit(accounts, owner, value, enforceMin);
      if d.Err? {
        return Abort(d.error);
      }
      Ledger.LedgerKeepsPositive(accounts, owner, value, enforceMin);
      ghost var before := accounts;
      accounts := d.value;
      Ledger.BankrollKeys(accounts, owner);
      if Ledger.Find(accounts, owner).None? {
        var doomed := CascadeScope(games, owner);
        EraseOffersKeepsMirror(hashPrefix, games, matches, doomed);
        CascadeKeepsFunded(before, accounts, games, owner);
        EraseOffers(doomed);
      } else {
        FundedGrows(before, accounts, games);
      }
      r := Done;
    }

    /**
     * The zero-balance cascade's walk: each open offer in `doomed` is erased together with the
     * placeholder under its key. The set erased does not depend on the order of the walk, so the
     * keys are taken in any order.
     */
    method EraseOffers(doomed: set<Key>)
      modifies this
      ensures games == old(games) - doomed && matches == old(matches) - doomed
      ensures accounts == old(accounts) && payments == old(payments)
    {
      var pending := doomed;
      while pending != {}
        invariant pending <= doomed
        invariant games == old(games) - (doomed - pending)
        invariant matches == old(matches) - (doomed - pending)
        invariant accounts == old(accounts) && payments == old(payments)
        decreases pending
      {
        ghost var w := AnyMember(pending);
        var k :| k in pending;
        matches := matches - {k};
        games := games - {k};
        pending := pending - {k};
      }
    }

    /** `commit`: a funded host offers a game; a placeholder match is preallocated beside it. */
    method Commit(host: Name, commitment: Checksum256, now: Time) returns (r: Outcome)
      requires Valid()
      modifies this
      ensures Valid()
      ensures r == Abort(NoBankroll) <==> host !in old(Balances())
      ensures host in old(Balances()) ==> (r == Abort(ReservedSource) <==> hashPrefix(commitment) == ZERO_SOURCE)
      ensures host in old(Balances()) && hashPrefix(commitment) != ZERO_SOURCE ==>
        (r == Abort(DuplicateCommitment) <==> hashPrefix(commitment) in old(matches))
      ensures r == Done <==>
        host in old(Balances()) && hashPrefix(commitment) != ZERO_SOURCE && hashPrefix(commitment) !in old(matches)
      ensures r.Abort? ==> unchanged(this)
      ensures r.Done? ==>
        && games == old(games)[hashPrefix(commitment) := Game(commitment, host)]
        && matches == old(matches)[hashPrefix(commitment) := Placeholder(commitment, host, now)]
        && accounts == old(accounts) && payments == old(payments)
    {
      Ledger.BankrollKeys(accounts, host);
      if Ledger.Find(accounts, host).None? {
        return Abort(NoBankroll);
      }
      var key := hashPrefix(commitment);
      if key == ZERO_SOURCE {
        return Abort(ReservedSource);
      }
      if key in matches {
        return Abort(DuplicateCommitment);
      }
      AddOfferKeepsMirror(hashPrefix, games, matches, commitment, host, now);
      games := games[key := Game(commitment, host)];
      matches := matches[key := Placeholder(commitment, host, now)];
      r := Done;
    }

    /**
     * `cancelcommit`: withdraws an offer nobody has taken. The caller is not compared with the
     * offer's host, so the outcome depends only on the commitment.
     */
    method CancelCommit(host: Name, commitment: Checksum256) returns (r: Outcome)
      requires Valid()
      modifies this
      ensures Valid()
      ensures r == Abort(CommitmentNotFound) <==> hashPrefix(commitment) !in old(matches)
      ensures hashPrefix(commitment) in old(matches) ==>
        (r == Abort(AlreadyInPlay) <==> !IsPlaceholder(old(matches)[hashPrefix(commitment)]))
      ensures r.Done? <==> hashPrefix(commitment) in old(games)
      ensures r.Abort? ==> unchanged(this)
      ensures r.Done? ==>
        && games == old(games) - {hashPrefix(commitment)}
        && matches == old(matches) - {hashPrefix(commitment)}
        && accounts == old(accounts) && payments == old(payments)
    {
      var key := hashPrefix(commitment);
      if key !in matches {
        return Abort(CommitmentNotFound);
      }
      if !IsPlaceholder(matches[key]) {
        return Abort(AlreadyInPlay);
      }
      EraseOffersKeepsMirror(hashPrefix, games, matches, {key});
      matches := matches - {key};
      games := games - {key};
      r := Done;
    }

    /**
     * `reveal`: the host discloses the source of a commitment. A match in play is settled (the
     * player is paid, the host credited); a placeholder is withdrawn with its offer.
     */
    method Reveal(commitment: Checksum256, source: Checksum256) returns (r: Outcome)
      requires Valid()
      modifies this
      ensures Valid()
      ensures r == Abort(CommitmentMismatch) <==> sha256(source) != commitment
      ensures sha256(source) == commitment ==>
        (r == Abort(CommitmentNotFound) <==> hashPrefix(commitment) !in old(matches))
      ensures r == Done <==> sha256(source) == commitment && hashPrefix(commitment) in old(matches)
      ensures r.Abort? ==> unchanged(this)
      ensures r.Done? ==> hashPrefix(commitment) in old(matches) && matches == old(matches) - {hashPrefix(commitment)}
      ensures r.Done? && IsPlaceholder(old(matches)[hashPrefix(commitment)]) ==>
        games == old(games) - {hashPrefix(commitment)} && accounts == old(accounts) && payments == old(payments)
      ensures r.Done? && !IsPlaceholder(old(matches)[hashPrefix(commitment)]) ==>
        var m := old(matches)[hashPrefix(commitment)];
        var p := Settlement.Settle(m.bet, m.guess, source);
        && payments == old(payments) + [Payment(m.player, p.player, p.memo)]
        && Balances() == old(Balances())[m.host := Ledger.BalanceOf(old(accounts), m.host) + p.host]
        && games == old(games)
    {
      if sha256(source) != commitment {
        return Abort(CommitmentMismatch);
      }
      var key := hashPrefix(commitment);
      if key !in matches {
        return Abort(CommitmentNotFound);
      }
      var em := matches[key];
      if !IsPlaceholder(em) {
        PayOut(em, source);
        EraseSettledKeepsMirror(hashPrefix, games, matches, {key});
      } else {
        EraseOffersKeepsMirror(hashPrefix, games, matches, {key});
        games := games - {key};
      }
      matches := matches - {key};
      r := Done;
    }

    /** The settlement of a match in play: the player is paid and the host's bankroll credited. */
    method PayOut(em: Match, source: Checksum256)
      requires Valid() && !IsPlaceholder(em) && em.bet > 0
      modifies this
      ensures Valid()
      ensures var p := Settlement.Settle(em.bet, em.guess, source);
        && payments == old(payments) + [Payment(em.player, p.player, p.memo)]
        && Balances() == old(Balances())[em.host := Ledger.BalanceOf(old(accounts), em.host) + p.host]
      ensures games == old(games) && matches == old(matches)
    {
      var p := Settlement.Settle(em.bet, em.guess, source);
      Settlement.PayoutsPositive(em.bet, em.guess, source);
      payments := payments + [Payment(em.player, p.player, p.memo)];
      var credited := AddBalance(em.host, p.host, false);
      assert credited == Done;
    }

    /**
     * `collect`: walks the byplayer index from the caller's first match to its end, paying the
     * caller the whole pot of every match past its deadline and erasing that match. The ghost
     * `order` lists the erased keys in the order they were paid.
     */
    method Collect(player: Name, now: Time) returns (ghost order: seq<Key>)
      requires Valid()
      modifies this
      ensures player != NULL_NAME ==> Valid()
      ensures matches == old(matches) - Expired(old(matches), player, now)
      ensures forall k :: k in order <==> k in Expired(old(matches), player, now)
      ensures forall i, j :: 0 <= i < j < |order| ==> PlayerOrder(old(matches), order[i], order[j])
      ensures payments == old(payments) + TimeoutPayments(old(matches), order, player)
      ensures accounts == old(accounts) && games == old(games)
    {
      ghost var matches0 := matches;
      // The walk works on the table and the outbox as local values and stores them at the end.
      var ms, paid := matches, [];
      var pending := CollectScope(ms, player);
      WalkStart(matches0, player, now);
      order := [];
      while pending != {}
        invariant WalkErased(matches0, player, now, pending, ms)
        invariant WalkOrder(matches0, player, now, pending, order)
        invariant paid == TimeoutPayments(matches0, order, player)
        modifies {}
        decreases pending
      {
        var k := FirstByPlayer(ms, pending);
        forall j | j in pending && j != k
          ensures PlayerOrder(matches0, k, j)
        {
          assert PlayerOrder(ms, k, j);
        }
        var em := ms[k];
        if now > em.deadline {
          WalkErasedExpired(matches0, player, now, pending, ms, k);
          WalkOrderExpired(matches0, player, now, pending, order, k);
          TimeoutPaymentsAppend(matches0, order, k, player);
          paid := paid + [Payment(player, em.bet * 2, "Win! (Timeout)")];
          ms := ms - {k};
          order := order + [k];
        } else {
          WalkErasedRunning(matches0, player, now, pending, ms, k);
          WalkOrderRunning(matches0, player, now, pending, order, k);
        }
        pending := pending - {k};
      }
      matches := ms;
      payments := payments + paid;
      WalkEnd(matches0, player, now, ms, order);
      if player != NULL_NAME {
        CollectSkipsPlaceholders(matches0, player, now);
        EraseSettledKeepsMirror(hashPrefix, games, matches0, Expired(matches0, player, now));
      }
    }

    /**
     * `do_bet`: scans the accounts in table order for the first host whose bankroll is at least
     * one hundred times the bet and that has an open offer; the bet is staked from that host's
     * bankroll and fills the host's first offer. Without such a host the bet is refused, naming
     * the largest bet a host with an offer could take.
     */
    method DoBet(player: Name, quantity: int, guess: int, now: Time) returns (r: Outcome)
      requires Valid() && quantity > 0 && (guess == 0 || guess == 1)
      modifies this
      ensures Valid()
      ensures payments == old(payments)
      ensures FirstEligible(old(accounts), old(games), quantity).None? ==>
        r == Abort(NoBetsError(MaxBankroll(old(accounts), old(games)))) && unchanged(this)
      ensures FirstEligible(old(accounts), old(games), quantity).Some? ==>
        var i := FirstEligible(old(accounts), old(games), quantity).value;
        var host := old(accounts)[i];
        var key := FirstGame(old(games), host.owner).value;
        && r == Done
        && accounts == old(accounts)[i := Account(host.owner, host.balance - quantity)]
        && key in old(matches)
        && games == old(games) - {key}
        && matches == old(matches)[key := old(matches)[key].(guess := guess, player := player, bet := quantity, deadline := DeadlineAfter(now))]
    {
      var found, maxBankroll := ScanHosts(quantity);
      if found.None? {
        return Abort(NoBetsError(maxBankroll));
      }
      Stake(found.value, player, quantity, guess, now);
      r := Done;
    }

    /**
     * The match half of `do_bet` for the host of row `i`: the bet is staked from the host's
     * bankroll and fills the placeholder of the host's first open offer, which is closed.
     */
    method Stake(i: nat, player: Name, quantity: int, guess: int, now: Time)
      requires Valid() && quantity > 0 && (guess == 0 || guess == 1)
      requires i < |accounts| && Eligible(accounts[i], games, quantity)
      modifies this
      ensures Valid()
      ensures var host := old(accounts)[i];
        var key := FirstGame(old(games), host.owner).value;
        && accounts == old(accounts)[i := Account(host.owner, host.balance - quantity)]
        && key in old(matches)
        && games == old(games) - {key}
        && matches == old(matches)[key := old(matches)[key].(guess := guess, player := player, bet := quantity, deadline := DeadlineAfter(now))]
      ensures payments == old(payments)
    {
      var acct := accounts[i];
      var key := FirstGame(games, acct.owner).value;
      // A host that can cover the bet keeps a positive balance, so the debit never triggers
      // the zero-balance cascade.
      MatchedHostStaysFunded(acct, games, quantity);
      Ledger.DebitInPlace(accounts, i, quantity);
      ghost var staked := accounts[i := Account(acct.owner, acct.balance - quantity)];
      var debited := SubBalance(acct.owner, quantity, false);
      assert debited == Done && accounts == staked;
      Ledger.BankrollAt(accounts, i);
      FillOffer(key, player, quantity, guess, now);
    }

    /** The placeholder of open offer `key` is filled with the bet, and the offer is closed. */
    method FillOffer(key: Key, player: Name, quantity: int, guess: int, now: Time)
      requires Valid() && quantity > 0 && (guess == 0 || guess == 1)
      requires key in games
      modifies this
      ensures Valid()
      ensures key in old(matches) && games == old(games) - {key}
      ensures matches == old(matches)[key := old(matches)[key].(guess := guess, player := player, bet := quantity, deadline := DeadlineAfter(now))]
      ensures accounts == old(accounts) && payments == old(payments)
    {
      FillOfferKeepsMirror(hashPrefix, games, matches, key, guess, player, quantity, DeadlineAfter(now));
      var em := matches[key];
      matches := matches[key := em.(guess := guess, player := player, bet := quantity, deadline := DeadlineAfter(now))];
      games := games - {key};
    }

    /**
     * The scan of `do_bet` over the accounts table: the first host that can take the bet, and,
     * when there is none, the largest bankroll among the hosts with an open offer.
     */
    method ScanHosts(quantity: int) returns (found: Option<nat>, maxBankroll: int)
      ensures found == FirstEligible(accounts, games, quantity)
      ensures found.None? ==> maxBankroll == MaxBankroll(accounts, games)
    {
      maxBankroll := ZERO_ACORNS;
      var i := 0;
      while i < |accounts|
        invariant 0 <= i <= |accounts|
        invariant forall j :: 0 <= j < i ==> !Eligible(accounts[j], games, quantity)
        invariant maxBankroll == MaxBankroll(accounts[..i], games)
      {
        var acct := accounts[i];
        assert accounts[..i + 1][..i] == accounts[..i];
        if acct.balance / MAX_BET_TO_BANKROLL_RATIO >= quantity {
          if FirstGame(games, acct.owner).Some? {
            assert FirstEligibleAt(accounts, games, quantity, i);
            return Some(i), maxBankroll;
          }
        } else if acct.balance > maxBankroll {
          if FirstGame(games, acct.owner).Some? {
            maxBankroll := acct.balance;
          }
        }
        i := i + 1;
      }
      assert accounts[..i] == accounts;
      found := None;
    }

    /** `withdraw`: pays out part or all of a host's bankroll. */
    method Withdraw(to: Name, quantity: int, isAcorn: bool) returns (r: Outcome)
      requires Valid()
      modifies this
      ensures Valid()
      ensures !isAcorn ==> r == Abort(WrongSymbol)
      ensures isAcorn && quantity <= 0 ==> r == Abort(NonPositiveQuantity)
      ensures r.Abort? ==> unchanged(this)
      ensures isAcorn && quantity > 0 ==>
        var d := Ledger.Debit(old(accounts), to, quantity, true);
        && (d.Err? ==> r == Abort(d.error))
        && (d.Ok? ==> r == Done && accounts == d.value && payments == old(payments) + [Payment(to, quantity, "")])
      ensures r.Done? && to !in Balances() ==>
        && games == old(games) - CascadeScope(old(games), to)
        && matches == old(matches) - CascadeScope(old(games), to)
      ensures r.Done? && to in Balances() ==> games == old(games) && matches == old(matches)
    {
      if !isAcorn {
        return Abort(WrongSymbol);
      }
      if quantity <= 0 {
        return Abort(NonPositiveQuantity);
      }
      r := SubBalance(to, quantity, true);
      if r.Done? {
        payments := payments + [Payment(to, quantity, "")];
      }
    }

    /**
     * The handler of an inbound ACORN transfer. Transfers the contract sends itself are ignored;
     * any other must carry at least the minimum quantity and a memo of at most 256 bytes, and the
     * memo selects a bet on odd (1) or even (0), or a deposit to the sender's bankroll.
     */
    method AcornTransfer(from: Name, quantity: int, isAcorn: bool, memo: string, now: Time) returns (r: Outcome)
      requires Valid()
      modifies this
      ensures Valid()
      ensures r.Abort? ==> unchanged(this)
      ensures from == self ==> r == Done && unchanged(this)
      ensures from != self ==>
        if !isAcorn then r == Abort(WrongSymbol)
        else if quantity < MIN_TRANSFER_SHELLS then r == Abort(BelowMinimumQuantity)
        else if |memo| > Memo.MAX_MEMO_BYTES then r == Abort(MemoTooLong)
        else match Memo.ParseMemo(memo)
          case Invalid => r == Abort(InvalidMemo)
          case Deposit =>
            && (r.Done? <==> from in old(Balances()) || quantity >= MIN_BALANCE)
            && (r.Done? ==> Balances() == old(Balances())[from := Ledger.BalanceOf(old(accounts), from) + quantity])
            && games == old(games) && matches == old(matches) && payments == old(payments)
          case Bet(g) =>
            && (NoneEligible(old(accounts), old(games), quantity) ==>
                  r == Abort(NoBetsError(MaxBankroll(old(accounts), old(games)))))
            && (!NoneEligible(old(accounts), old(games), quantity) ==>
                  var i := FirstEligible(old(accounts), old(games), quantity).value;
                  var host := old(accounts)[i];
                  var key := FirstGame(old(games), host.owner).value;
                  && r == Done && payments == old(payments)
                  && accounts == old(accounts)[i := Account(host.owner, host.balance - quantity)]
                  && key in old(matches)
                  && games == old(games) - {key}
                  && matches == old(matches)[key := old(matches)[key].(guess := g, player := from, bet := quantity, deadline := DeadlineAfter(now))])
    {
      if from == self {
        return Done;
      }
      if !isAcorn {
        return Abort(WrongSymbol);
      }
      if quantity < MIN_TRANSFER_SHELLS {
        return Abort(BelowMinimumQuantity);
      }
      if |memo| > Memo.MAX_MEMO_BYTES {
        return Abort(MemoTooLong);
      }
      match Memo.ParseMemo(memo)
      case Bet(g) =>
        r := DoBet(from, quantity, g, now);
      case Deposit =>
        r := AddBalance(from, quantity, true);
      case Invalid =>
        r := Abort(InvalidMemo);
    }
  }

  /** Cancelling a commitment right after committing it restores every table. */
  method CommitThenCancel(d: Dice, host: Name, commitment: Checksum256, now: Time) returns (committed: Outcome, cancelled: Outcome)
    requires d.Valid()
    modifies d
    ensures d.Valid()
    ensures committed.Done? ==>
      && cancelled == Done
      && d.accounts == old(d.accounts) && d.games == old(d.games)
      && d.matches == old(d.matches) && d.payments == old(d.payments)
  {
    committed := d.Commit(host, commitment, now);
    ghost var key := d.hashPrefix(commitment);
    cancelled := d.CancelCommit(host, commitment);
    if committed.Done? {
      assert key !in old(d.games);
      assert d.games == old(d.games)[key := Game(commitment, host)] - {key} == old(d.games);
      assert d.matches == old(d.matches)[key := Placeholder(commitment, host, now)] - {key} == old(d.matches);
    }
  }
}
