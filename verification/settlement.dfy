/** Who wins a revealed match, and what each side receives. */
module Settlement {
  import opened Tables

  /** The outcome of a source: the lowest bit of its last byte (1 = odd, 0 = even). */
  function OutcomeBit(source: Checksum256): (b: int)
    ensures b == 0 || b == 1
    ensures b == (source[31] as int) % 2
  {
    (source[31] & 1) as int
  }

  datatype Payout = Payout(player: int, host: int, memo: string)

  /**
   * The payouts of a matched bet: the winner's share is twice the bet less one shell; the loser
   * gets one shell (the player as a loss notice, the host to cover that notice on a win).
   */
  function Settle(bet: int, guess: int, source: Checksum256): (p: Payout)
    ensures p.player + p.host == 2 * bet
    ensures OutcomeBit(source) == guess <==> p.memo == "Win!"
    ensures p.memo == "Win!" ==> p.player == 2 * bet - ACORN_SHELL && p.host == ACORN_SHELL
    ensures p.memo != "Win!" ==> p.memo == "Lose" && p.player == ACORN_SHELL && p.host == 2 * bet - ACORN_SHELL
  {
    var winQuantity := bet * 2 - ACORN_SHELL;
    if OutcomeBit(source) == guess then Payout(winQuantity, ACORN_SHELL, "Win!")
    else Payout(ACORN_SHELL, winQuantity, "Lose")
  }

  /** With a positive bet both sides receive a positive amount, so the host credit never fails. */
  lemma PayoutsPositive(bet: int, guess: int, source: Checksum256)
    requires bet > 0
    ensures Settle(bet, guess, source).player > 0 && Settle(bet, guess, source).host > 0
  {
  }

  /**
   * A bet placed with an odd spelling (guess 1) wins exactly when the last source byte is odd,
   * one placed with an even spelling (guess 0) exactly when it is even.
   */
  lemma ParityDecides(bet: int, guess: int, source: Checksum256)
    requires guess == 0 || guess == 1
    ensures Settle(bet, guess, source).memo == "Win!" <==> (source[31] as int) % 2 == guess
  {
  }
}
