/** Value types, constants, table rows and their index keys of the betacorn dice contract. */
module Tables {

  /** The 64-bit value of an eosio account `name`. */
  type Name = n: int | 0 <= n < 0x1_0000_0000_0000_0000

  /** A 64-bit primary key of the games and matches tables. */
  type Key = k: int | 0 <= k < 0x1_0000_0000_0000_0000

  /** Seconds since the epoch, as the 32-bit unsigned value of a `time_point_sec`. */
  type Time = t: int | 0 <= t < 0x1_0000_0000

  /** A `checksum256`: a commitment, or the 32-byte secret source that hashes to one. */
  type Checksum256 = s: seq<bv8> | |s| == 32 witness seq(32, _ => 0)

  const TIME_LIMIT: int := 0x1_0000_0000

  // Amounts are counted in shells, the smallest unit of the ACORN token (precision 4).
  const NULL_NAME: Name := 0
  const NULL_GUESS: int := 0x7F
  const MAX_BET_TO_BANKROLL_RATIO: int := 100
  const MIN_TRANSFER_SHELLS: int := 100
  const GAME_TIMEOUT_SECS: int := 5 * 60
  /** The 64-bit commitment key of the all-zero 32-byte source. */
  const ZERO_SOURCE: Key := 0x6c8fc18b8e9f8e20
  const ZERO_ACORNS: int := 0
  const ACORN_SHELL: int := 1
  const MIN_BALANCE: int := 500000
  /** The raw code of the symbol "ACORN": one character per byte, first character lowest. */
  const ACORN_SYMBOL_CODE: Key := 0x4E_52_4F_43_41

  /** Constant facts the rest of the contract relies on. */
  lemma ConstantsOrdered()
    ensures MIN_BALANCE > MIN_TRANSFER_SHELLS > ACORN_SHELL > ZERO_ACORNS
    ensures NULL_GUESS != 0 && NULL_GUESS != 1
    ensures MIN_BALANCE / MAX_BET_TO_BANKROLL_RATIO == 5000
    ensures MIN_BALANCE / MAX_BET_TO_BANKROLL_RATIO >= MIN_TRANSFER_SHELLS
  {
  }

  /** A host's bankroll row. */
  datatype Account = Account(owner: Name, balance: int)

  /** An open game offer: a host's unmatched commitment. */
  datatype Game = Game(commitment: Checksum256, host: Name)

  /** A match record: a placeholder while `guess == NULL_GUESS`, a game in play otherwise. */
  datatype Match = Match(
    commitment: Checksum256,
    host: Name,
    guess: int,
    player: Name,
    bet: int,
    deadline: Time)

  /** An outbound token transfer issued by the contract (`pay`). */
  datatype Payment = Payment(to: Name, quantity: int, memo: string)

  /** `account::primary_key`: the raw symbol code of the balance, whoever owns the row. */
  function AccountPrimaryKey(a: Account): Key
  {
    ACORN_SYMBOL_CODE
  }

  /** `account::get_owner`, the key of the byowner index. */
  function AccountOwnerKey(a: Account): Name
  {
    a.owner
  }

  /** `game::primary_key`: the hash prefix of the commitment. */
  function GamePrimaryKey(hashPrefix: Checksum256 -> Key, g: Game): Key
  {
    hashPrefix(g.commitment)
  }

  /** `game::get_host`, the key of the byhost index. */
  function GameHostKey(g: Game): Name
  {
    g.host
  }

  /** `match::primary_key`: the hash prefix of the commitment. */
  function MatchPrimaryKey(hashPrefix: Checksum256 -> Key, m: Match): Key
  {
    hashPrefix(m.commitment)
  }

  /** `match::get_player`, the key of the byplayer index. */
  function MatchPlayerKey(m: Match): Name
  {
    m.player
  }

  predicate IsPlaceholder(m: Match)
  {
    m.guess == NULL_GUESS
  }

  /** The match row that `commit` preallocates beside a new game offer. */
  function Placeholder(commitment: Checksum256, host: Name, now: Time): Match
  {
    Match(commitment, host, NULL_GUESS, NULL_NAME, ZERO_ACORNS, now)
  }

  /** Every account row has the same primary key, so a table keyed by it holds at most one row. */
  lemma AccountKeysCollide(a: Account, b: Account)
    ensures AccountPrimaryKey(a) == AccountPrimaryKey(b)
  {
  }

  /**
   * A game and the placeholder match `commit` creates with it are found under the same key,
   * and a placeholder sits under the empty name in the byplayer index.
   */
  lemma MirrorSharesKeys(hashPrefix: Checksum256 -> Key, c: Checksum256, host: Name, now: Time)
    ensures GamePrimaryKey(hashPrefix, Game(c, host)) == MatchPrimaryKey(hashPrefix, Placeholder(c, host, now))
    ensures GameHostKey(Game(c, host)) == host
    ensures IsPlaceholder(Placeholder(c, host, now))
    ensures MatchPlayerKey(Placeholder(c, host, now)) == NULL_NAME
  {
  }

  /** `time_point_sec(now + GAME_TIMEOUT_SECS)`: the 32-bit sum wraps around. */
  function DeadlineAfter(now: Time): (d: Time)
    ensures now + GAME_TIMEOUT_SECS < TIME_LIMIT ==> d == now + GAME_TIMEOUT_SECS && d > now
    ensures now + GAME_TIMEOUT_SECS >= TIME_LIMIT ==> d < now
  {
    (now + GAME_TIMEOUT_SECS) % TIME_LIMIT
  }

  /** The reasons an action aborts (each a `check` failure in the contract). */
  datatype Error =
    | WrongSymbol             // the asset is not ACORN
    | NonPositiveQuantity     // withdraw of a quantity <= 0
    | BelowMinimumQuantity    // inbound transfer under MIN_TRANSFER_SHELLS
    | MemoTooLong             // inbound memo over 256 bytes
    | InvalidMemo             // memo is not one of the accepted spellings
    | BelowMinimumBalance     // first deposit under MIN_BALANCE
    | NoAccount               // sub_balance on an owner without a row
    | Overdrawn               // sub_balance of more than the balance
    | RemainderBelowMinimum   // withdrawal leaves a nonzero remainder under MIN_BALANCE
    | BelowMinimumWithdrawal  // partial withdrawal under MIN_TRANSFER_SHELLS
    | NoBankroll              // commit by a host without a row
    | ReservedSource          // commitment key equals ZERO_SOURCE
    | DuplicateCommitment     // commitment key already in the matches table
    | CommitmentNotFound      // cancel or reveal of an unknown key
    | AlreadyInPlay           // cancel of a match a player has taken
    | CommitmentMismatch      // the source does not hash to the commitment
    | NoBetsAvailable         // no host can take the bet, max bet under the minimum transfer
    | MaximumBet(max: int)    // no host can take the bet; the largest bet one could take
    | DuplicatePrimaryKey     // emplace of a row whose primary key is taken

  /** The effect of an action: it completes, or it aborts and changes nothing. */
  datatype Outcome = Done | Abort(error: Error)

  datatype Result<T> = Ok(value: T) | Err(error: Error)

  datatype Option<T> = None | Some(value: T)
}
