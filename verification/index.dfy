/**
 * Lookups through the secondary indices (games by host, matches by player) and the
 * specifications of the contract's three table scans: the bet matcher over accounts, the
 * zero-balance cascade over games and the timeout collector over matches.
 */
module Index {
  import opened Tables
  import opened Sets
  import Ledger

  // ---------------------------------------------------------------------------------------
  // games, byhost index
  // ---------------------------------------------------------------------------------------

  predicate HasGame(games: map<Key, Game>, host: Name)
  {
    exists k :: k in games && games[k].host == host
  }

  /**
   * `host_games.find(host)`: the first entry of the byhost index with that host, which is the
   * host's game with the least primary key.
   */
  function FirstGame(games: map<Key, Game>, host: Name): (r: Option<Key>)
    ensures r.None? <==> !HasGame(games, host)
    ensures r.Some? ==> r.value in games && games[r.value].host == host
    ensures r.Some? ==> forall k :: k in games && games[k].host == host ==> r.value <= k
  {
    var own := set k | k in games && games[k].host == host;
    assert forall k :: k in games && games[k].host == host ==> k in own;
    if own == {} then None
    else
      var m := Least(own);
      Some(m)
  }

  /**
   * The games the zero-balance cascade of `sub_balance` erases: the walk starts at the owner's
   * first game in the byhost index and runs to the END of the index, so when the owner has an
   * offer it also takes every offer of every host whose name value is greater.
   */
  function CascadeScope(games: map<Key, Game>, owner: Name): (s: set<Key>)
    ensures s <= games.Keys
  {
    if HasGame(games, owner) then set k | k in games && games[k].host >= owner else {}
  }

  /** The cascade removes every offer of the owner and no offer of a host with a smaller name. */
  lemma CascadeTakesOwnerOffers(games: map<Key, Game>, owner: Name)
    ensures forall k :: k in games && games[k].host == owner ==> k in CascadeScope(games, owner)
    ensures forall k :: k in games && games[k].host < owner ==> k !in CascadeScope(games, owner)
  {
  }

  /** The cascade's reach past the owner: another host's offer is erased with the owner's. */
  lemma CascadeTakesLaterHosts(games: map<Key, Game>, owner: Name, own: Key, other: Key)
    requires own in games && games[own].host == owner
    requires other in games && games[other].host > owner
    ensures other in CascadeScope(games, owner)
  {
  }

  // ---------------------------------------------------------------------------------------
  // matches, byplayer index
  // ---------------------------------------------------------------------------------------

  /** The byplayer index order: by player, then by primary key. */
  predicate PlayerOrder(matches: map<Key, Match>, a: Key, b: Key)
    requires a in matches && b in matches
  {
    matches[a].player < matches[b].player || (matches[a].player == matches[b].player && a < b)
  }

  /** The entry of `s` that comes first in the byplayer index. */
  function FirstByPlayer(matches: map<Key, Match>, s: set<Key>): (k: Key)
    requires s != {} && s <= matches.Keys
    ensures k in s
    ensures forall j :: j in s && j != k ==> PlayerOrder(matches, k, j)
  {
    var players := set j | j in s :: matches[j].player;
    assert forall j :: j in s ==> matches[j].player in players;
    var p := Least(players);
    var first := set j | j in s && matches[j].player == p;
    assert forall j :: j in s && matches[j].player == p ==> j in first;
    Least(first)
  }

  predicate HasMatch(matches: map<Key, Match>, player: Name)
  {
    exists k :: k in matches && matches[k].player == player
  }

  /**
   * The entries `collect(player)` walks: from `find(player)` in the byplayer index to the END
   * of the index, so every match whose player value is at least `player` when the player has
   * one, and nothing otherwise.
   */
  function CollectScope(matches: map<Key, Match>, player: Name): (s: set<Key>)
    ensures s <= matches.Keys
  {
    if HasMatch(matches, player) then set k | k in matches && matches[k].player >= player else {}
  }

  /** The matches `collect(player)` erases and pays out: those in its walk past their deadline. */
  function Expired(matches: map<Key, Match>, player: Name, now: Time): (s: set<Key>)
    ensures s <= matches.Keys
    ensures forall k :: k in s ==> now > matches[k].deadline
    ensures forall k :: k in matches && matches[k].player == player && now > matches[k].deadline ==> k in s
  {
    set k | k in CollectScope(matches, player) && now > matches[k].deadline
  }

  /** What collect misses: without an expired match of its own, and without any match, nothing. */
  lemma CollectWithoutMatchesIsNoop(matches: map<Key, Match>, player: Name, now: Time)
    requires !HasMatch(matches, player)
    ensures Expired(matches, player, now) == {}
  {
  }

  /**
   * The walk's reach past the caller: once the caller has any match, an expired match of a
   * player with a greater name value is erased and its pot paid to the caller.
   */
  lemma CollectTakesLaterPlayers(matches: map<Key, Match>, player: Name, now: Time, own: Key, other: Key)
    requires own in matches && matches[own].player == player
    requires other in matches && matches[other].player > player && now > matches[other].deadline
    ensures other in Expired(matches, player, now)
  {
  }

  /** A collect by a named player never reaches a placeholder, which is indexed under the empty name. */
  lemma CollectSkipsPlaceholders(matches: map<Key, Match>, player: Name, now: Time)
    requires player != NULL_NAME
    requires forall k :: k in matches && IsPlaceholder(matches[k]) ==> matches[k].player == NULL_NAME
    ensures forall k :: k in Expired(matches, player, now) ==> !IsPlaceholder(matches[k])
  {
  }

  /** The pot of each expired match, paid to the caller of collect. */
  function TimeoutPayments(matches: map<Key, Match>, order: seq<Key>, player: Name): (ps: seq<Payment>)
    requires forall i :: 0 <= i < |order| ==> order[i] in matches
    ensures |ps| == |order|
    ensures forall i :: 0 <= i < |order| ==>
      ps[i] == Payment(player, 2 * matches[order[i]].bet, "Win! (Timeout)")
  {
    if order == [] then []
    else
      var last := order[|order| - 1];
      TimeoutPayments(matches, order[..|order| - 1], player) + [Payment(player, 2 * matches[last].bet, "Win! (Timeout)")]
  }

  /**
   * The tables side of collect's walk over `matches0`, with `pending` the part of the walk still
   * ahead: entries ahead are untouched, and behind the walk exactly the expired ones are erased.
   */
  ghost predicate WalkErased(matches0: map<Key, Match>, player: Name, now: Time, pending: set<Key>, ms: map<Key, Match>)
  {
    && pending <= CollectScope(matches0, player)
    && (forall k :: k in pending ==> k in ms && ms[k] == matches0[k])
    && ms == matches0 - (Expired(matches0, player, now) - pending)
  }

  /**
   * The order side of the walk: `order` holds the expired entries behind the walk, in index
   * order, each before every entry still ahead.
   */
  ghost predicate WalkOrder(matches0: map<Key, Match>, player: Name, now: Time, pending: set<Key>, order: seq<Key>)
  {
    && pending <= matches0.Keys
    && (forall i :: 0 <= i < |order| ==> order[i] in matches0)
    && (forall k :: k in order <==> k in Expired(matches0, player, now) && k !in pending)
    && (forall i, j :: 0 <= i < j < |order| ==> PlayerOrder(matches0, order[i], order[j]))
    && (forall i, k :: 0 <= i < |order| && k in pending ==> PlayerOrder(matches0, order[i], k))
  }

  /** The walk starts at the caller's first match with nothing erased. */
  lemma WalkStart(matches0: map<Key, Match>, player: Name, now: Time)
    ensures WalkErased(matches0, player, now, CollectScope(matches0, player), matches0)
    ensures WalkOrder(matches0, player, now, CollectScope(matches0, player), [])
  {
  }

  /** Passing an expired entry erases it. */
  lemma WalkErasedExpired(matches0: map<Key, Match>, player: Name, now: Time, pending: set<Key>, ms: map<Key, Match>, k: Key)
    requires WalkErased(matches0, player, now, pending, ms)
    requires k in pending && now > matches0[k].deadline
    ensures WalkErased(matches0, player, now, pending - {k}, ms - {k})
  {
    var expired := Expired(matches0, player, now);
    assert k in expired;
    assert expired - (pending - {k}) == (expired - pending) + {k};
  }

  /** Passing an entry still running keeps it. */
  lemma WalkErasedRunning(matches0: map<Key, Match>, player: Name, now: Time, pending: set<Key>, ms: map<Key, Match>, k: Key)
    requires WalkErased(matches0, player, now, pending, ms)
    requires k in pending && now <= matches0[k].deadline
    ensures WalkErased(matches0, player, now, pending - {k}, ms)
  {
    assert k !in Expired(matches0, player, now);
  }

  /** An expired entry that comes first among those ahead is appended to the order. */
  lemma WalkOrderExpired(matches0: map<Key, Match>, player: Name, now: Time, pending: set<Key>, order: seq<Key>, k: Key)
    requires WalkOrder(matches0, player, now, pending, order)
    requires pending <= CollectScope(matches0, player)
    requires k in pending && now > matches0[k].deadline
    requires forall j :: j in pending && j != k ==> PlayerOrder(matches0, k, j)
    ensures WalkOrder(matches0, player, now, pending - {k}, order + [k])
  {
    var order' := order + [k];
    assert k in Expired(matches0, player, now);
    assert forall j :: j in order' <==> j in order || j == k;
    forall i, j | 0 <= i < j < |order'|
      ensures PlayerOrder(matches0, order'[i], order'[j])
    {
      if j < |order| {
        assert order'[i] == order[i] && order'[j] == order[j];
      } else {
        assert order'[j] == k && order'[i] == order[i];
      }
    }
  }

  /** An entry still running leaves the order as it is. */
  lemma WalkOrderRunning(matches0: map<Key, Match>, player: Name, now: Time, pending: set<Key>, order: seq<Key>, k: Key)
    requires WalkOrder(matches0, player, now, pending, order)
    requires k in pending && now <= matches0[k].deadline
    ensures WalkOrder(matches0, player, now, pending - {k}, order)
  {
    assert k !in Expired(matches0, player, now);
  }

  /** Paying one more expired match appends its pot to the payments. */
  lemma TimeoutPaymentsAppend(matches: map<Key, Match>, order: seq<Key>, k: Key, player: Name)
    requires forall i :: 0 <= i < |order| ==> order[i] in matches
    requires k in matches
    ensures TimeoutPayments(matches, order + [k], player)
      == TimeoutPayments(matches, order, player) + [Payment(player, 2 * matches[k].bet, "Win! (Timeout)")]
  {
    assert (order + [k])[..|order|] == order;
  }

  /** At the end of the walk every expired match in it is erased, in index order. */
  lemma WalkEnd(matches0: map<Key, Match>, player: Name, now: Time, ms: map<Key, Match>, order: seq<Key>)
    requires WalkErased(matches0, player, now, {}, ms)
    requires WalkOrder(matches0, player, now, {}, order)
    ensures ms == matches0 - Expired(matches0, player, now)
    ensures forall k :: k in order <==> k in Expired(matches0, player, now)
    ensures forall i, j :: 0 <= i < j < |order| ==> PlayerOrder(matches0, order[i], order[j])
  {
  }

  // ---------------------------------------------------------------------------------------
  // the bet matcher's scan over accounts
  // ---------------------------------------------------------------------------------------

  /** A host can take a bet when one percent of its bankroll covers it and it has an offer. */
  predicate Eligible(a: Account, games: map<Key, Game>, quantity: int)
  {
    a.balance / MAX_BET_TO_BANKROLL_RATIO >= quantity && HasGame(games, a.owner)
  }

  /** Row `i` is the first in scan order that can take the bet. */
  predicate FirstEligibleAt(rows: seq<Account>, games: map<Key, Game>, quantity: int, i: int)
  {
    0 <= i < |rows| && Eligible(rows[i], games, quantity)
    && forall j :: 0 <= j < i ==> !Eligible(rows[j], games, quantity)
  }

  predicate NoneEligible(rows: seq<Account>, games: map<Key, Game>, quantity: int)
  {
    forall j :: 0 <= j < |rows| ==> !Eligible(rows[j], games, quantity)
  }

  /** The row the bet matcher settles on: the first in scan order that can take the bet. */
  function FirstEligible(rows: seq<Account>, games: map<Key, Game>, quantity: int): (r: Option<nat>)
    ensures r.Some? ==> FirstEligibleAt(rows, games, quantity, r.value)
    ensures r.None? <==> NoneEligible(rows, games, quantity)
  {
    if rows == [] then None
    else if Eligible(rows[0], games, quantity) then Some(0)
    else match FirstEligible(rows[1..], games, quantity)
      case None =>
        assert forall j :: 1 <= j < |rows| ==> rows[j] == rows[1..][j - 1];
        None
      case Some(i) =>
        assert forall j :: 1 <= j <= i + 1 ==> rows[j] == rows[1..][j - 1];
        Some(i + 1)
  }

  /** The largest bankroll of a host with an open offer (zero when there is none). */
  function MaxBankroll(rows: seq<Account>, games: map<Key, Game>): (m: int)
    ensures m >= 0
    ensures forall i :: 0 <= i < |rows| && HasGame(games, rows[i].owner) ==> rows[i].balance <= m
    ensures m == 0 || exists i :: 0 <= i < |rows| && HasGame(games, rows[i].owner) && rows[i].balance == m
  {
    if rows == [] then 0
    else
      var m := MaxBankroll(rows[..|rows| - 1], games);
      var last := rows[|rows| - 1];
      if last.balance > m && HasGame(games, last.owner) then last.balance else m
  }

  /** The refusal of an unmatched bet: the largest bet a host could take, or none at all. */
  function NoBetsError(maxBankroll: int): (e: Error)
    ensures e.NoBetsAvailable? || e.MaximumBet?
    ensures e.MaximumBet? <==> maxBankroll / MAX_BET_TO_BANKROLL_RATIO >= MIN_TRANSFER_SHELLS
    ensures e.MaximumBet? ==> e.max * MAX_BET_TO_BANKROLL_RATIO <= maxBankroll < (e.max + 1) * MAX_BET_TO_BANKROLL_RATIO
  {
    var maxBet := maxBankroll / MAX_BET_TO_BANKROLL_RATIO;
    if maxBet < MIN_TRANSFER_SHELLS then NoBetsAvailable else MaximumBet(maxBet)
  }

  /**
   * When no host can take a bet, the reported maximum is the bet the best-funded host with an
   * offer could take, it is below the refused bet, and every host with an offer is within it.
   */
  lemma {:induction false} ReportedMaximumIsTight(rows: seq<Account>, games: map<Key, Game>, quantity: int)
    requires quantity > 0 && NoneEligible(rows, games, quantity)
    ensures MaxBankroll(rows, games) / MAX_BET_TO_BANKROLL_RATIO < quantity
    ensures forall i :: 0 <= i < |rows| && HasGame(games, rows[i].owner) ==>
      rows[i].balance / MAX_BET_TO_BANKROLL_RATIO <= MaxBankroll(rows, games) / MAX_BET_TO_BANKROLL_RATIO
    ensures NoBetsError(MaxBankroll(rows, games)).MaximumBet? ==>
      MIN_TRANSFER_SHELLS <= NoBetsError(MaxBankroll(rows, games)).max < quantity
  {
    var m := MaxBankroll(rows, games);
    if m != 0 {
      var i :| 0 <= i < |rows| && HasGame(games, rows[i].owner) && rows[i].balance == m;
      assert !Eligible(rows[i], games, quantity);
    }
    forall i | 0 <= i < |rows| && HasGame(games, rows[i].owner)
      ensures rows[i].balance / MAX_BET_TO_BANKROLL_RATIO <= m / MAX_BET_TO_BANKROLL_RATIO
    {
      DivMonotone(rows[i].balance, m);
    }
  }

  lemma DivMonotone(a: int, b: int)
    requires a <= b
    ensures a / MAX_BET_TO_BANKROLL_RATIO <= b / MAX_BET_TO_BANKROLL_RATIO
  {
  }

  /** The host a bet is matched to keeps a positive bankroll: it holds at least 100 times the bet. */
  lemma MatchedHostStaysFunded(a: Account, games: map<Key, Game>, quantity: int)
    requires quantity > 0 && Eligible(a, games, quantity)
    ensures a.balance - quantity >= 99 * quantity > 0
  {
  }
}
