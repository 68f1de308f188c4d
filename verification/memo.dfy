/**
 * The memo of an inbound ACORN transfer decides what the transfer is for. Matching is on a
 * fixed list of exact spellings; any other memo refuses the transfer.
 */
module Memo {

  /** Longest memo accepted, in bytes (one `char` here stands for one byte of the memo). */
  const MAX_MEMO_BYTES: int := 256

  datatype Command = Bet(guess: int) | Deposit | Invalid

  /** The accepted spellings of each command (none for Invalid). */
  function Spellings(c: Command): set<string>
  {
    match c
    case Bet(g) =>
      if g == 1 then {"odd", "Odd", "ODD", "1"}
      else if g == 0 then {"even", "Even", "EVEN", "0"}
      else {}
    case Deposit => {"deposit", "Deposit", "DEPOSIT"}
    case Invalid => {}
  }

  /** The dispatch of `acorn_transfer`: odd spellings bet 1, even spellings bet 0. */
  function ParseMemo(memo: string): (c: Command)
    ensures c.Bet? ==> c.guess == 0 || c.guess == 1
    ensures c != Invalid <==> memo in Spellings(c)
    ensures c == Invalid <==> forall d :: memo !in Spellings(d)
  {
    if memo == "odd" || memo == "Odd" || memo == "ODD" || memo == "1" then Bet(1)
    else if memo == "even" || memo == "Even" || memo == "EVEN" || memo == "0" then Bet(0)
    else if memo == "deposit" || memo == "Deposit" || memo == "DEPOSIT" then Deposit
    else Invalid
  }

  /** Every listed spelling parses back to its command: the spelling sets do not overlap. */
  lemma {:induction false} ParseInvertsSpellings(c: Command, memo: string)
    requires memo in Spellings(c)
    ensures ParseMemo(memo) == c
  {
    match c
    case Bet(g) =>
      if g == 1 {
        assert memo == "odd" || memo == "Odd" || memo == "ODD" || memo == "1";
      } else {
        assert memo == "even" || memo == "Even" || memo == "EVEN" || memo == "0";
        assert ParseMemo(memo) == Bet(0) by {
          assert memo != "odd" && memo != "Odd" && memo != "ODD" && memo != "1" by {
            assert |memo| == 1 ==> memo[0] == '0';
          }
        }
      }
    case Deposit =>
      assert memo == "deposit" || memo == "Deposit" || memo == "DEPOSIT";
      assert |memo| == 7;
    case Invalid =>
  }

  /** Spellings are exact: other capitalisations and padded forms are refused. */
  lemma NotCaseInsensitive()
    ensures ParseMemo("oDd") == Invalid
    ensures ParseMemo("EVEn") == Invalid
    ensures ParseMemo("deposit ") == Invalid
    ensures ParseMemo("") == Invalid
  {
    assert "oDd"[1] == 'D';
    assert "EVEn"[3] == 'n';
    assert |"deposit "| == 8;
  }

  /** Every accepted memo fits the 256-byte limit, so the length check never hides one. */
  lemma AcceptedMemosFit(memo: string)
    requires ParseMemo(memo) != Invalid
    ensures |memo| <= MAX_MEMO_BYTES
  {
  }
}
