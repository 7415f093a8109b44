/**
 The stop-and-wait link to the DSP (libdtudsp/dspcomm.cpp): block splitting, reassembly, retries.
 */
module DspLink {
  import opened Bytes
  import opened Sequences

  const MAX_BLOCK: nat := 131072
  const LAST_BLOCK: uint16 := 0xFFFC
  const COMMAND_BLOCK: uint16 := 0xFFFE
  const NO_BLOCK: uint32 := 0xFFFF

  /** At most as many bytes as a 32-bit length can count. */
  type payload = s: seq<byte> | |s| < 0x1_0000_0000 witness []

  /** A frame in the shared memory; data are the first _curLen bytes of the data area. */
  datatype Block = Block(total: uint32, no: uint16, data: payload)

  // ---------------------------------------------------------------- replies to a write

  const TX_PC_ACK: uint16 := 0xBBE0
  const TX_PC_NACK: uint16 := 0xBBE1
  const TX_PC_CRC_BAD: uint16 := 0xBBE2

  datatype Outcome = Success | DspError | UnknownError | Overrun | Waiting

  datatype CheckType = Control | Write | Read

  /** One round of try_execute_write: the frame did not go out, no reply could be read, or one came. */
  datatype WriteRound = SendFailed | ReplyUnread | Reply(cmd: uint16, total: uint32, cur: uint32, no: uint16)

  predicate SelfCheck(t: CheckType, r: WriteRound)
    requires r.Reply?
  {
    t.Read? || r.cmd == TX_PC_CRC_BAD || (r.cmd == TX_PC_ACK && r.total == 0 && r.cur == 0 && r.no == COMMAND_BLOCK)
  }

  /** A reply that is neither accepted nor a refusal. */
  predicate WrongReply(t: CheckType, r: WriteRound) { r.Reply? && !SelfCheck(t, r) && r.cmd != TX_PC_NACK }

  function ExecuteWrite(t: CheckType, nRetry: uint32, rounds: seq<WriteRound>, resent: nat): Outcome
    decreases |rounds|
  {
    if rounds == [] then Waiting
    else
      match rounds[0]
      case SendFailed => if resent < nRetry then ExecuteWrite(t, nRetry, rounds[1..], resent + 1) else DspError
      case ReplyUnread => DspError
      case Reply(cmd, _, _, _) =>
        if SelfCheck(t, rounds[0]) then Success
        else if cmd == TX_PC_NACK || nRetry == 0 then DspError
        else ExecuteWrite(t, nRetry, rounds[1..], 1)
  }

  /** How often try_execute_write puts its frame on the link: once in each round it gets to whose send does not fail. */
  function Copies(t: CheckType, nRetry: uint32, rounds: seq<WriteRound>, resent: nat): nat
    decreases |rounds|
  {
    if rounds == [] then 0
    else if rounds[0].SendFailed? then if resent < nRetry then Copies(t, nRetry, rounds[1..], resent + 1) else 0
    else if WrongReply(t, rounds[0]) && nRetry > 0 then 1 + Copies(t, nRetry, rounds[1..], 1)
    else 1
  }

  /** A try that succeeds has put its frame on the link. */
  lemma {:induction false} SuccessLeavesCopy(t: CheckType, nRetry: uint32, rounds: seq<WriteRound>, resent: nat)
    requires ExecuteWrite(t, nRetry, rounds, resent) == Success
    ensures Copies(t, nRetry, rounds, resent) > 0
    decreases |rounds|
  {
    if rounds[0].SendFailed? {
      SuccessLeavesCopy(t, nRetry, rounds[1..], resent + 1);
    }
  }

  /** try_execute_write: Waiting if the rounds run out, and the copies of its frame put on the link. */
  method TryExecuteWrite(t: CheckType, nRetry: uint32, rounds: seq<WriteRound>) returns (outcome: Outcome, copies: nat)
    ensures outcome == ExecuteWrite(t, nRetry, rounds, 0) && copies == Copies(t, nRetry, rounds, 0)
  {
    var nResend := 0;
    copies := 0;
    for i := 0 to |rounds|
      invariant nResend <= nRetry && ExecuteWrite(t, nRetry, rounds[i..], nResend) == ExecuteWrite(t, nRetry, rounds, 0)
      invariant copies + Copies(t, nRetry, rounds[i..], nResend) == Copies(t, nRetry, rounds, 0)
    {
      assert rounds[i..][0] == rounds[i] && rounds[i..][1..] == rounds[i + 1..];
      hide SelfCheck;
      if rounds[i].SendFailed? {
        nResend := nResend + 1;
        if nResend <= nRetry {
          continue;
        } else {
          return DspError, copies;
        }
      }
      copies := copies + 1;
      nResend := 0;
      if rounds[i].ReplyUnread? {
        return DspError, copies;
      }
      if SelfCheck(t, rounds[i]) {
        return Success, copies;
      }
      if rounds[i].cmd == TX_PC_NACK {
        return DspError, copies;
      }
      nResend := nResend + 1;
      if nResend > nRetry {
        return DspError, copies;
      }
    }
    outcome := Waiting;
  }

  /** Wrong replies are never given up on, whatever the limit, unless it is zero: they only set the counter to one. */
  lemma {:induction false} WrongRepliesAreUnbounded(t: CheckType, nRetry: uint32, wrong: seq<WriteRound>,
        later: seq<WriteRound>, resent: nat)
    requires wrong != [] && forall k :: 0 <= k < |wrong| ==> WrongReply(t, wrong[k])
    ensures ExecuteWrite(t, nRetry, wrong + later, resent)
         == if nRetry == 0 then DspError else ExecuteWrite(t, nRetry, later, 1)
    decreases |wrong|
  {
    assert (wrong + later)[1..] == wrong[1..] + later;
    if |wrong| == 1 {
      assert wrong[1..] + later == later;
    } else {
      WrongRepliesAreUnbounded(t, nRetry, wrong[1..], later, 1);
    }
  }

  /** A round that decides nothing by itself. */
  predicate Inconclusive(t: CheckType, r: WriteRound) { r.SendFailed? || WrongReply(t, r) }

  /**
   The failed sends in a row that end with round k, counted from 1 after a wrong reply and from resent at the start.
   */
  function Counter(rounds: seq<WriteRound>, k: nat, resent: nat): nat
    requires k <= |rounds|
  {
    if k == 0 then resent else if rounds[k - 1].SendFailed? then Counter(rounds, k - 1, resent) + 1 else 1
  }

  lemma {:induction false} CounterOfRow(rounds: seq<WriteRound>, i: nat, k: nat, resent: nat)
    requires i <= k <= |rounds| && forall j :: i <= j < k ==> rounds[j].SendFailed?
    ensures Counter(rounds, k, resent) == Counter(rounds, i, resent) + (k - i)
    decreases k - i
  {
    if i < k {
      CounterOfRow(rounds, i, k - 1, resent);
    }
  }

  lemma {:induction false} CounterShifts(rounds: seq<WriteRound>, k: nat, resent: nat)
    requires k < |rounds|
    ensures Counter(rounds, k + 1, resent) == Counter(rounds[1..], k, if rounds[0].SendFailed? then resent + 1 else 1)
    decreases k
  {
    if k > 0 {
      CounterShifts(rounds, k - 1, resent);
    }
  }

  /** No row of failed sends takes the counter past the limit. */
  predicate WithinLimit(rounds: seq<WriteRound>, nRetry: uint32, resent: nat) {
    forall k :: 0 <= k <= |rounds| ==> Counter(rounds, k, resent) <= nRetry
  }

  lemma WithinLimitStep(rounds: seq<WriteRound>, nRetry: uint32, resent: nat)
    requires rounds != []
    ensures WithinLimit(rounds, nRetry, resent) <==>
              resent <= nRetry && WithinLimit(rounds[1..], nRetry, if rounds[0].SendFailed? then resent + 1 else 1)
  {
    var first := if rounds[0].SendFailed? then resent + 1 else 1;
    assert Counter(rounds, 0, resent) == resent;
    forall k | 0 <= k < |rounds| ensures Counter(rounds, k + 1, resent) == Counter(rounds[1..], k, first) {
      CounterShifts(rounds, k, resent);
    }
    if resent <= nRetry && WithinLimit(rounds[1..], nRetry, first) {
      forall k | 0 <= k <= |rounds| ensures Counter(rounds, k, resent) <= nRetry {
        assert k > 0 ==> Counter(rounds, (k - 1) + 1, resent) == Counter(rounds[1..], k - 1, first);
      }
    }
  }

  /**
   Any mix of failed sends and wrong replies: the write goes on exactly while no row of failed sends passes the limit.
   */
  lemma {:induction false} GoesOnWithinLimit(t: CheckType, nRetry: uint32, rounds: seq<WriteRound>,
        later: seq<WriteRound>, resent: nat)
    requires resent <= nRetry && forall k :: 0 <= k < |rounds| ==> Inconclusive(t, rounds[k])
    ensures ExecuteWrite(t, nRetry, rounds + later, resent)
         == if WithinLimit(rounds, nRetry, resent)
             then ExecuteWrite(t, nRetry, later, Counter(rounds, |rounds|, resent)) else DspError
    decreases |rounds|
  {
    if rounds == [] {
      assert rounds + later == later;
    } else {
      var first := if rounds[0].SendFailed? then resent + 1 else 1;
      assert (rounds + later)[1..] == rounds[1..] + later;
      WithinLimitStep(rounds, nRetry, resent);
      CounterShifts(rounds, |rounds| - 1, resent);
      assert first > nRetry ==> Counter(rounds[1..], 0, first) > nRetry;
      if first <= nRetry {
        GoesOnWithinLimit(t, nRetry, rounds[1..], later, first);
      }
    }
  }

  /** So a write is still waiting exactly then, and has failed otherwise. */
  lemma WaitsExactlyWithinLimit(t: CheckType, nRetry: uint32, rounds: seq<WriteRound>)
    requires forall k :: 0 <= k < |rounds| ==> Inconclusive(t, rounds[k])
    ensures ExecuteWrite(t, nRetry, rounds, 0) == if WithinLimit(rounds, nRetry, 0) then Waiting else DspError
  {
    GoesOnWithinLimit(t, nRetry, rounds, [], 0);
    assert rounds + [] == rounds;
  }

  function SentRounds(rounds: seq<WriteRound>): nat
    decreases |rounds|
  {
    if rounds == [] then 0 else (if rounds[0].SendFailed? then 0 else 1) + SentRounds(rounds[1..])
  }

  /**
   Every write that is decided: the first round that is neither a failed send nor a wrong reply decides it, unless a row
   of failed sends passed the limit before. It then succeeds exactly if that round is a reply that is taken, and its
   frame was put on the link once for every round whose send did not fail.
   */
  lemma {:induction false} FirstConclusiveDecides(t: CheckType, nRetry: uint32, before: seq<WriteRound>, r: WriteRound,
        later: seq<WriteRound>, resent: nat)
    requires resent <= nRetry && (forall k :: 0 <= k < |before| ==> Inconclusive(t, before[k])) && !Inconclusive(t, r)
    ensures ExecuteWrite(t, nRetry, before + [r] + later, resent)
         == if WithinLimit(before, nRetry, resent) && r.Reply? && SelfCheck(t, r) then Success else DspError
    ensures WithinLimit(before, nRetry, resent) ==>
              Copies(t, nRetry, before + [r] + later, resent) == SentRounds(before) + 1
    decreases |before|
  {
    var rounds := before + [r] + later;
    if before == [] {
      assert rounds[0] == r;
      assert Counter(before, 0, resent) <= nRetry;
    } else {
      var first := if before[0].SendFailed? then resent + 1 else 1;
      assert rounds[1..] == before[1..] + [r] + later;
      WithinLimitStep(before, nRetry, resent);
      assert first > nRetry ==> Counter(before[1..], 0, first) > nRetry;
      if first <= nRetry {
        FirstConclusiveDecides(t, nRetry, before[1..], r, later, first);
      }
    }
  }

  /** In every case a copy goes out for each round that is reached and whose send does not fail. */
  lemma {:induction false} CopiesAreSends(t: CheckType, nRetry: uint32, rounds: seq<WriteRound>, resent: nat)
    returns (k: nat)
    ensures k <= |rounds| && Copies(t, nRetry, rounds, resent) == SentRounds(rounds[..k])
    ensures ExecuteWrite(t, nRetry, rounds[..k], resent) == ExecuteWrite(t, nRetry, rounds, resent)
    ensures forall i :: 0 <= i < k ==> ExecuteWrite(t, nRetry, rounds[..i], resent) == Waiting
    decreases |rounds|
  {
    if rounds == [] {
      k := 0;
    } else {
      var r := rounds[0];
      var goes := if r.SendFailed? then resent < nRetry else WrongReply(t, r) && nRetry > 0;
      if goes {
        var next := if r.SendFailed? then resent + 1 else 1;
        var j := CopiesAreSends(t, nRetry, rounds[1..], next);
        k := j + 1;
        assert rounds[..k][1..] == rounds[1..][..j];
        forall i | 0 <= i < k ensures ExecuteWrite(t, nRetry, rounds[..i], resent) == Waiting {
          if i > 0 {
            assert rounds[..i][1..] == rounds[1..][..i - 1];
          }
        }
      } else {
        k := 1;
        assert rounds[..1] == [r] && [r][1..] == [] && rounds[..0] == [];
      }
    }
  }

  /** The replies taken, by their codes: a checksum complaint counts as taken, too. */
  lemma TakenReplies(t: CheckType, r: WriteRound)
    requires r.Reply? && t != CheckType.Read
    ensures SelfCheck(t, r) <==>
              || r.cmd == 0xBBE2
              || (r.cmd == 0xBBE0 && r.total == 0 && r.cur == 0 && r.no == 0xFFFE)
    ensures !SelfCheck(t, r) ==> (Inconclusive(t, r) <==> r.cmd != 0xBBE1)
  {
  }

  // ---------------------------------------------------------------- the sender

  function BlockCount(src: payload): nat {
    |src| / MAX_BLOCK + (if |src| % MAX_BLOCK != 0 then 1 else 0)
  }

  /** Block j of the data; 2^32 bytes give at most 2^15 blocks, so the numbers stay below the special ones. */
  function BlockOf(src: payload, j: nat): (b: Block)
    requires j < BlockCount(src)
    ensures b.no == LAST_BLOCK <==> j == BlockCount(src) - 1
    ensures b.no == LAST_BLOCK || (b.no == j && b.no <= 0xFFF0)
  {
    if j < BlockCount(src) - 1 then Block(|src|, j, src[j * MAX_BLOCK..(j + 1) * MAX_BLOCK])
    else Block(|src|, LAST_BLOCK, src[j * MAX_BLOCK..])
  }

  /** For block j and try m, the rounds of its try_execute_write; a try that runs out of rounds does not return. */
  type Tries = (nat, nat) -> seq<WriteRound>

  const RETRIES: uint32 := 9

  function Try(rounds: seq<WriteRound>): Outcome { ExecuteWrite(CheckType.Write, RETRIES, rounds, 0) }

  function CopiesOfTry(rounds: seq<WriteRound>): nat { Copies(CheckType.Write, RETRIES, rounds, 0) }

  /** What becomes of block j from try m on. */
  function BlockOutcome(tries: Tries, j: nat, m: nat): (r: Outcome)
    requires m <= 3
    ensures r in {Success, DspError, Waiting}
    decreases 3 - m
  {
    if m == 3 then DspError
    else if Try(tries(j, m)) == DspError then BlockOutcome(tries, j, m + 1)
    else if Try(tries(j, m)) == Success then Success
    else Waiting
  }

  /** How often block j is put on the link from try m on. */
  function CopiesFrom(tries: Tries, j: nat, m: nat): nat
    requires m <= 3
    decreases 3 - m
  {
    if m == 3 then 0
    else CopiesOfTry(tries(j, m)) + if Try(tries(j, m)) == DspError then CopiesFrom(tries, j, m + 1) else 0
  }

  predicate Accepted(tries: Tries, j: nat) { BlockOutcome(tries, j, 0) == Success }

  lemma {:induction false} AcceptedLeavesCopy(tries: Tries, j: nat, m: nat)
    requires m <= 3 && BlockOutcome(tries, j, m) == Success
    ensures CopiesFrom(tries, j, m) > 0
    decreases 3 - m
  {
    if Try(tries(j, m)) == DspError {
      AcceptedLeavesCopy(tries, j, m + 1);
    } else {
      SuccessLeavesCopy(CheckType.Write, RETRIES, tries(j, m), 0);
    }
  }

  /** The blocks put on the link from block j on. */
  function SentFrom(src: payload, tries: Tries, j: nat): seq<Block>
    requires j <= BlockCount(src)
    decreases BlockCount(src) - j
  {
    if j == BlockCount(src) then []
    else
      Repeat(BlockOf(src, j), CopiesFrom(tries, j, 0))
      + (if Accepted(tries, j) then SentFrom(src, tries, j + 1) else [])
  }

  /** The cut of block j, as the loop of dsp_write_data makes it. */
  method MakeBlock(src: payload, j: nat, blockcnt: nat) returns (block: Block)
    requires j < blockcnt == BlockCount(src)
    ensures block == BlockOf(src, j)
  {
    var size, number := MAX_BLOCK, j % 0x1_0000;
    if j == blockcnt - 1 {
      size := |src| % MAX_BLOCK;
      if size == 0 {
        size := MAX_BLOCK;
      }
      number := LAST_BLOCK;
    }
    block := Block(|src|, number, src[j * MAX_BLOCK..j * MAX_BLOCK + size]);
  }

  /** The three tries of one block. */
  method SendBlock(block: Block, j: nat, tries: Tries) returns (outcome: Outcome, sent: seq<Block>)
    ensures outcome == BlockOutcome(tries, j, 0) && sent == Repeat(block, CopiesFrom(tries, j, 0))
  {
    sent, outcome := [], DspError;
    var m := 0;
    while m < 3
      invariant m <= 3 && outcome == DspError && BlockOutcome(tries, j, m) == BlockOutcome(tries, j, 0)
      invariant |sent| + CopiesFrom(tries, j, m) == CopiesFrom(tries, j, 0) && sent == Repeat(block, |sent|)
    {
      var copies;
      outcome, copies := TryExecuteWrite(CheckType.Write, RETRIES, tries(j, m));
      sent := sent + Repeat(block, copies);
      if outcome != DspError {
        OnlyThree(CheckType.Write, RETRIES, tries(j, m), 0);
        break;
      }
      m := m + 1;
    }
  }

  lemma {:induction false} OnlyThree(t: CheckType, nRetry: uint32, rounds: seq<WriteRound>, resent: nat)
    ensures ExecuteWrite(t, nRetry, rounds, resent) in {Success, DspError, Waiting}
    decreases |rounds|
  {
    if rounds != [] {
      OnlyThree(t, nRetry, rounds[1..], if rounds[0].SendFailed? then resent + 1 else 1);
    }
  }

  lemma SentAfterBlock(src: payload, tries: Tries, j: nat, before: seq<Block>)
    requires j < BlockCount(src)
    ensures var given := Repeat(BlockOf(src, j), CopiesFrom(tries, j, 0));
            before + SentFrom(src, tries, j)
            == if Accepted(tries, j) then before + given + SentFrom(src, tries, j + 1) else before + given
  {
    hide BlockOf, Repeat, CopiesFrom, Accepted;
    var given := Repeat(BlockOf(src, j), CopiesFrom(tries, j, 0));
    assert before + (given + SentFrom(src, tries, j + 1)) == before + given + SentFrom(src, tries, j + 1);
    assert before + (given + []) == before + given;
  }

  /** Every block up to n was accepted. */
  predicate AllAccepted(tries: Tries, n: nat) { forall j :: 0 <= j < n ==> Accepted(tries, j) }

  /** One of the first n blocks was the first not to be accepted, and all its tries failed. */
  predicate GivenUp(tries: Tries, n: nat) {
    exists j :: 0 <= j < n && AllAccepted(tries, j) && BlockOutcome(tries, j, 0) == DspError
  }

  /** The answer to a write of n blocks; none if some try does not return. */
  function AnswerOf(tries: Tries, n: nat): Answer {
    if AllAccepted(tries, n) then Good else if GivenUp(tries, n) then Failed else Pending
  }

  lemma AllAcceptedStep(tries: Tries, j: nat, n: nat)
    requires AllAccepted(tries, j)
    ensures Accepted(tries, j) ==> AllAccepted(tries, j + 1)
    ensures j < n && !Accepted(tries, j) ==>
              AnswerOf(tries, n) == if BlockOutcome(tries, j, 0) == DspError then Failed else Pending
  {
    hide BlockOutcome;
    if GivenUp(tries, n) && !Accepted(tries, j) {
      var k :| 0 <= k < n && AllAccepted(tries, k) && BlockOutcome(tries, k, 0) == DspError;
      assert !Accepted(tries, k);
      assert k == j;
    }
  }

  /** What is put on the link, split at block j: what was sent before, and what is still to be sent. */
  predicate SentSoFar(src: payload, tries: Tries, j: nat, sent: seq<Block>) {
    j <= BlockCount(src) && sent + SentFrom(src, tries, j) == SentFrom(src, tries, 0)
  }

  /** The body of the loop over the blocks. */
  method SendNext(src: payload, tries: Tries, j: nat, blockcnt: nat, before: seq<Block>)
    returns (outcome: Outcome, sent: seq<Block>)
    requires j < blockcnt == BlockCount(src) && SentSoFar(src, tries, j, before)
    ensures outcome == BlockOutcome(tries, j, 0)
    ensures if outcome == Success then SentSoFar(src, tries, j + 1, sent) else sent == SentFrom(src, tries, 0)
  {
    hide SentFrom, BlockOf, BlockOutcome, CopiesFrom, Repeat, BlockCount;
    SentAfterBlock(src, tries, j, before);
    var block := MakeBlock(src, j, blockcnt);
    var given;
    outcome, given := SendBlock(block, j, tries);
    sent := before + given;
  }

  lemma SentAtEnds(src: payload, tries: Tries, sent: seq<Block>)
    ensures SentSoFar(src, tries, 0, [])
    ensures SentSoFar(src, tries, BlockCount(src), sent) ==> sent == SentFrom(src, tries, 0)
  {
    assert [] + SentFrom(src, tries, 0) == SentFrom(src, tries, 0);
    assert sent + [] == sent;
  }

  /** The commands dsp_write_data takes. */
  predicate WritesData(cmd: uint16) { 0xAAA0 <= cmd <= 0xAAAC || cmd == 0xAAAE || cmd == 0xAAB0 || cmd == 0xAAB1 }

  datatype Answer = Good | Failed | InvalidCommand | Thrown | Pending

  /** dsp_write_data: the return value and the blocks put on the link, in order. */
  method DspWriteData(cmd: uint16, src: payload, tries: Tries) returns (answer: Answer, sent: seq<Block>)
    ensures !WritesData(cmd) ==> answer == InvalidCommand && sent == []
    ensures WritesData(cmd) ==> answer == AnswerOf(tries, BlockCount(src)) && sent == SentFrom(src, tries, 0)
  {
    if !WritesData(cmd) {
      return InvalidCommand, [];
    }
    var blockcnt := |src| / MAX_BLOCK;
    if |src| % MAX_BLOCK != 0 {
      blockcnt := blockcnt + 1;
    }
    answer, sent := SendBlocks(src, tries, blockcnt);
  }

  /** The loop over the blocks. */
  method SendBlocks(src: payload, tries: Tries, blockcnt: nat) returns (answer: Answer, sent: seq<Block>)
    requires blockcnt == BlockCount(src)
    ensures answer == AnswerOf(tries, blockcnt) && sent == SentFrom(src, tries, 0)
  {
    hide *;
    sent := [];
    SentAtEnds(src, tries, []);
    AllAcceptedAtOnce(tries);
    var j := 0;
    while j < blockcnt
      invariant j <= blockcnt && AllAccepted(tries, j) && SentSoFar(src, tries, j, sent)
    {
      var outcome;
      outcome, sent := SendNext(src, tries, j, blockcnt, sent);
      AllAcceptedStep(tries, j, blockcnt);
      AcceptedIs(tries, j);
      if outcome != Success {
        return if outcome == DspError then Failed else Pending, sent;
      }
      j := j + 1;
    }
    SentAtEnds(src, tries, sent);
    AllAcceptedIsGood(tries, blockcnt);
    answer := Good;
  }

  lemma AllAcceptedAtOnce(tries: Tries)
    ensures AllAccepted(tries, 0)
  {
  }

  lemma AcceptedIs(tries: Tries, j: nat)
    ensures Accepted(tries, j) <==> BlockOutcome(tries, j, 0) == Success
  {
  }

  lemma AllAcceptedIsGood(tries: Tries, n: nat)
    ensures AllAccepted(tries, n) <==> AnswerOf(tries, n) == Good
  {
  }

  // ---------------------------------------------------------------- what goes out

  function Joints(src: payload, n: nat): seq<byte>
    requires n <= BlockCount(src)
  {
    if n == 0 then [] else Joints(src, n - 1) + BlockOf(src, n - 1).data
  }

  /** The blocks cut the data: pieces of 131072 bytes and a last one of at least one byte, numbered in order. */
  lemma {:induction false} BlocksCut(src: payload, n: nat)
    requires n <= BlockCount(src)
    ensures Joints(src, n) == if n == BlockCount(src) then src else src[..131072 * n]
    ensures n > 0 ==>
              var b := BlockOf(src, n - 1);
              && b.total == |src| && b.no == (if n == BlockCount(src) then 0xFFFC else n - 1)
              && (n < BlockCount(src) ==> |b.data| == 131072) && 0 < |b.data| <= 131072
    decreases n
  {
    if n > 0 {
      BlocksCut(src, n - 1);
      hide Joints;
      var from := 131072 * (n - 1);
      if n == BlockCount(src) {
        assert src[..from] + src[from..] == src;
      } else {
        assert src[..from] + src[from..from + 131072] == src[..131072 * n];
      }
    }
  }

  /** A try by itself: try_execute_write with a limit of nine failed sends in a row. */
  predicate Succeeds(rounds: seq<WriteRound>) { ExecuteWrite(CheckType.Write, 9, rounds, 0) == Success }

  predicate Fails(rounds: seq<WriteRound>) { ExecuteWrite(CheckType.Write, 9, rounds, 0) == DspError }

  /** A block is accepted by the first of three tries that succeeds after others that failed. */
  lemma AcceptedWithinThree(tries: Tries, j: nat)
    ensures Accepted(tries, j) <==>
              || Succeeds(tries(j, 0))
              || (Fails(tries(j, 0)) && Succeeds(tries(j, 1)))
              || (Fails(tries(j, 0)) && Fails(tries(j, 1)) && Succeeds(tries(j, 2)))
    ensures BlockOutcome(tries, j, 0) == DspError <==>
              Fails(tries(j, 0)) && Fails(tries(j, 1)) && Fails(tries(j, 2))
  {
    hide ExecuteWrite;
    TriesInTurn(tries, j, 2);
    TriesInTurn(tries, j, 1);
    TriesInTurn(tries, j, 0);
  }

  lemma TriesInTurn(tries: Tries, j: nat, m: nat)
    requires m <= 2
    ensures BlockOutcome(tries, j, m) == Success <==>
              Succeeds(tries(j, m)) || (Fails(tries(j, m)) && m < 2 && BlockOutcome(tries, j, m + 1) == Success)
    ensures BlockOutcome(tries, j, m) == DspError <==>
              Fails(tries(j, m)) && (m < 2 ==> BlockOutcome(tries, j, m + 1) == DspError)
    ensures CopiesFrom(tries, j, m)
         == CopiesOfTry(tries(j, m)) + if Fails(tries(j, m)) && m < 2 then CopiesFrom(tries, j, m + 1) else 0
  {
    hide ExecuteWrite, Copies;
  }

  /** All blocks from j up to i were accepted. */
  predicate AcceptedFrom(tries: Tries, j: nat, i: nat) { forall k :: j <= k < i ==> Accepted(tries, k) }

  function Times(blocks: seq<Block>, b: Block): nat { multiset(blocks)[b] }

  /** How often a block is in what goes out: a copy for each its tries sent, if all blocks before it were accepted. */
  lemma {:induction false} SentExactly(src: payload, tries: Tries, j: nat, i: nat)
    requires j <= i < BlockCount(src)
    ensures Times(SentFrom(src, tries, j), BlockOf(src, i))
         == if AcceptedFrom(tries, j, i) then CopiesFrom(tries, i, 0) else 0
    decreases i - j
  {
    hide *;
    var copies := Repeat(BlockOf(src, j), CopiesFrom(tries, j, 0));
    var later := if Accepted(tries, j) then SentFrom(src, tries, j + 1) else [];
    SentSplits(src, tries, j);
    CountJoin(copies, later, BlockOf(src, i));
    CountCopies(BlockOf(src, j), CopiesFrom(tries, j, 0), BlockOf(src, i));
    AcceptedFromStep(tries, j, i);
    if i == j {
      NoneBelow(src, tries, j + 1, j);
    } else {
      BlocksDiffer(src, j, i);
      if Accepted(tries, j) {
        SentExactly(src, tries, j + 1, i);
      }
    }
    NoneInNothing(BlockOf(src, i));
  }

  lemma SentSplits(src: payload, tries: Tries, j: nat)
    requires j < BlockCount(src)
    ensures SentFrom(src, tries, j)
         == Repeat(BlockOf(src, j), CopiesFrom(tries, j, 0))
            + if Accepted(tries, j) then SentFrom(src, tries, j + 1) else []
  {
    hide BlockOf, CopiesFrom, Accepted;
  }

  lemma AcceptedFromStep(tries: Tries, j: nat, i: nat)
    requires j <= i
    ensures AcceptedFrom(tries, i, i)
    ensures j < i ==> (AcceptedFrom(tries, j, i) <==> Accepted(tries, j) && AcceptedFrom(tries, j + 1, i))
  {
    hide Accepted;
  }

  lemma CountJoin(x: seq<Block>, y: seq<Block>, b: Block)
    ensures Times(x + y, b) == Times(x, b) + Times(y, b)
  {
  }

  lemma NoneInNothing(b: Block)
    ensures Times([], b) == 0
  {
  }

  lemma BlocksDiffer(src: payload, i: nat, j: nat)
    requires i < j < BlockCount(src)
    ensures BlockOf(src, i) != BlockOf(src, j)
  {
    BlocksCut(src, i + 1);
    BlocksCut(src, j + 1);
    hide BlockOf;
  }

  lemma {:induction false} CountCopies(b: Block, n: nat, other: Block)
    ensures Times(Repeat(b, n), other) == if other == b then n else 0
  {
    if n > 0 {
      CountCopies(b, n - 1, other);
      assert Repeat(b, n) == Repeat(b, n - 1) + [b];
    }
  }

  lemma {:induction false} NoneBelow(src: payload, tries: Tries, j: nat, i: nat)
    requires i < j <= BlockCount(src)
    ensures Times(SentFrom(src, tries, j), BlockOf(src, i)) == 0
    decreases BlockCount(src) - j
  {
    hide *;
    NoneInNothing(BlockOf(src, i));
    if j < BlockCount(src) {
      var copies := Repeat(BlockOf(src, j), CopiesFrom(tries, j, 0));
      BlocksDiffer(src, i, j);
      NoneBelow(src, tries, j + 1, i);
      SentSplits(src, tries, j);
      CountCopies(BlockOf(src, j), CopiesFrom(tries, j, 0), BlockOf(src, i));
      CountJoin(copies, if Accepted(tries, j) then SentFrom(src, tries, j + 1) else [], BlockOf(src, i));
    } else {
      NothingSent(src, tries);
    }
  }

  lemma NothingSent(src: payload, tries: Tries)
    ensures SentFrom(src, tries, BlockCount(src)) == []
  {
  }

  // ---------------------------------------------------------------- the receiver

  /** CheckRecvMsg: a command frame without data, or a data frame with a legal block number. */
  predicate CheckRecvMsg(b: Block) {
    if b.total == 0 then b.data == [] && b.no == COMMAND_BLOCK
    else b.data != [] && (b.no == LAST_BLOCK || b.no <= 0xFFF0)
  }

  /**
   One round of the receive loop: no frame could be read, or one arrived and the reply to it did or did not go out.
   */
  datatype Event = NoRead | Arrived(block: Block, replied: bool)

  /**
   The state between two rounds: the buffer, the length counter, the last block number, NACKs so far, tempData's data.
   */
  datatype Receiving = Receiving(recvData: seq<byte>, count: uint32, lastNo: uint32, resent: nat, held: payload)

  datatype Round = Goes(next: Receiving) | Ends(outcome: Outcome, recvData: seq<byte>)

  const FRESH := Receiving([], 0, NO_BLOCK, 0, [])

  function Resized(s: seq<byte>, n: uint32): seq<byte> { if s == [] then seq(n, _ => 0) else s }

  /** A frame that passed the check: stored at the counter unless its number repeats. */
  function Store(st: Receiving, b: Block): (r: Round)
    ensures r.Ends? ==> r.outcome.UnknownError? || r.outcome.Overrun?
  {
    var held := if b.data != [] then b.data else st.held;
    var data := Resized(st.recvData, b.total);
    if st.lastNo == b.no then Goes(st.(recvData := data, held := held))
    else
      match Set(data, st.count, held)
      case Done(t) =>
        Goes(st.(recvData := t, count := (st.count + |b.data|) % 0x1_0000_0000, lastNo := b.no, held := held))
      case Throws => Ends(UnknownError, data)
      case Overrun => Ends(Outcome.Overrun, data)
  }

  function ReceiveOne(st: Receiving, e: Event): Round {
    match e
    case NoRead => Ends(DspError, st.recvData)
    case Arrived(b, replied) =>
      if !CheckRecvMsg(b) then
        if !replied || st.resent == 3 then Ends(DspError, st.recvData)
        else Goes(st.(resent := st.resent + 1, held := if b.data != [] then b.data else st.held))
      else
        var r := Store(st, b);
        if r.Ends? || b.no != LAST_BLOCK then r
        else Ends(if r.next.count >= b.total then Success else DspError, r.next.recvData)
  }

  function Receive(st: Receiving, events: seq<Event>): (r: (Outcome, seq<byte>))
    decreases |events|
  {
    if events == [] then (Waiting, st.recvData)
    else
      match ReceiveOne(st, events[0])
      case Goes(next) => Receive(next, events[1..])
      case Ends(outcome, data) => (outcome, data)
  }

  /** What try_execute_read meets: whether the command went out, and the rounds after it. */
  datatype Attempt = Attempt(sent: bool, events: seq<Event>)

  function ExecuteRead(a: Attempt): (Outcome, seq<byte>) {
    if a.sent then Receive(FRESH, a.events) else (DspError, [])
  }

  class DspComm {
    var recvData: seq<byte>

    constructor (recvData: seq<byte>) { this.recvData := recvData; }

    /** try_execute_read; whatever the buffer held before plays no part in it. */
    method TryExecuteRead(a: Attempt) returns (outcome: Outcome)
      modifies this
      ensures (outcome, recvData) == ExecuteRead(a)
    {
      recvData := [];
      if !a.sent {
        return DspError;
      }
      var st := FRESH;
      for i := 0 to |a.events|
        invariant st.recvData == recvData && Receive(st, a.events[i..]) == Receive(FRESH, a.events)
      {
        assert a.events[i..][0] == a.events[i] && a.events[i..][1..] == a.events[i + 1..];
        hide Receive;
        var ends;
        ends, outcome, st := ReceiveRound(a.events[i], st);
        if ends {
          return;
        }
      }
      outcome := Waiting;
    }

    /** One round of the receive loop. */
    method ReceiveRound(e: Event, st: Receiving) returns (ends: bool, outcome: Outcome, next: Receiving)
      requires st.recvData == recvData
      modifies this
      ensures match ReceiveOne(st, e)
              case Goes(n) => !ends && next == n && recvData == n.recvData
              case Ends(o, data) => ends && outcome == o && recvData == data
    {
      var tempData := st.held;
      ends, outcome, next := true, DspError, st;
      if e.NoRead? {
        return;
      }
      var b := e.block;
      if |b.data| != 0 {
        tempData := b.data;
      }
      next := st.(held := tempData);
      if !CheckRecvMsg(b) {
        if !e.replied || st.resent == 3 {
          return;
        }
        next := next.(resent := st.resent + 1);
        return false, Waiting, next;
      }
      if |recvData| == 0 {
        recvData := seq(b.total, _ => 0);
      }
      if st.lastNo != b.no {
        var write := Set(recvData, st.count, tempData);
        if !write.Done? {
          return true, if write.Throws? then UnknownError else Outcome.Overrun, next;
        }
        recvData := write.value;
        next := next.(count := (st.count + |b.data|) % 0x1_0000_0000, lastNo := b.no);
      }
      next := next.(recvData := recvData);
      if b.no == LAST_BLOCK {
        return true, if next.count >= b.total then Success else DspError, next;
      }
      ends, outcome := false, Waiting;
    }

    /** The attempts of dsp_read_data: the buffer is what the last one made left. */
    method Attempts(attempts: seq<Attempt>) returns (success: bool, used: nat)
      requires |attempts| == 3 && forall m :: 0 <= m < 3 ==> ExecuteRead(attempts[m]).0 != Waiting
      modifies this
      ensures success <==> exists m :: 0 <= m < 3 && ExecuteRead(attempts[m]).0 == Success
      ensures 1 <= used <= 3 && recvData == ExecuteRead(attempts[used - 1]).1
      ensures success ==> ExecuteRead(attempts[used - 1]).0 == Success
      ensures forall m :: 0 <= m < used - 1 ==> ExecuteRead(attempts[m]).0 != Success
    {
      success, used := false, 0;
      while used < 3
        invariant used <= 3 && !success
        invariant used > 0 ==> recvData == ExecuteRead(attempts[used - 1]).1
        invariant forall m :: 0 <= m < used ==> ExecuteRead(attempts[m]).0 != Success
      {
        hide ExecuteRead;
        var outcome := TryExecuteRead(attempts[used]);
        used := used + 1;
        if outcome == Success {
          success := true;
          assert ExecuteRead(attempts[used - 1]).0 == Success;
          break;
        }
      }
    }

    /** dsp_read_data; the result of a self check gets the connection state put into it. */
    method DspReadData(cmd: uint16, attempts: seq<Attempt>, connectState: uint16) returns (answer: Answer, used: nat)
      requires |attempts| == 3 && forall m :: 0 <= m < 3 ==> ExecuteRead(attempts[m]).0 != Waiting
      modifies this
      ensures !ReadsData(cmd) ==> answer == InvalidCommand && recvData == old(recvData)
      ensures ReadsData(cmd) ==>
                1 <= used <= 3 && forall m :: 0 <= m < used - 1 ==> ExecuteRead(attempts[m]).0 != Success
      ensures ReadsData(cmd) ==>
                var (outcome, data) := ExecuteRead(attempts[used - 1]);
                (answer, recvData) == Checked(cmd, outcome == Success, data, connectState)
      ensures answer == Failed <==> ReadsData(cmd) && forall m :: 0 <= m < 3 ==> ExecuteRead(attempts[m]).0 != Success
    {
      if !ReadsData(cmd) {
        return InvalidCommand, 0;
      }
      hide ExecuteRead, Status;
      var success;
      success, used := Attempts(attempts);
      answer := if success then Good else Failed;
      if cmd == PC_R_CHECK && success {
        var check := Get(recvData, 22, 2);
        if !check.Done? {
          return Thrown, used;
        }
        var write := Set(recvData, 22, Le16(Status(Of16(check.value), connectState)));
        recvData := write.value;
      }
    }
  }

  const PC_R_CHECK: uint16 := 0xAAF4

  /** The commands dsp_read_data takes. */
  predicate ReadsData(cmd: uint16) { 0xAAE1 <= cmd <= 0xAAEC || 0xAAEE <= cmd <= 0xAAFF || 0xAB01 <= cmd <= 0xAB0B }

  /** The connection state, with bit 10 of the self check kept if it is set. */
  function Status(check: uint16, connectState: uint16): uint16 {
    if check / 0x400 % 2 == 1 && connectState / 0x400 % 2 == 0 then connectState + 0x400 else connectState
  }

  /** What dsp_read_data makes of the last attempt. */
  function Checked(cmd: uint16, success: bool, data: seq<byte>, connectState: uint16): (Answer, seq<byte>) {
    if !success then (Failed, data)
    else if cmd != PC_R_CHECK then (Good, data)
    else if |data| < 24 then (Thrown, data)
    else (Good, data[..22] + Le16(Status(Of16(data[22..24]), connectState)) + data[24..])
  }

  /** The status put into a self check: bit 10 is set if either has it, all other bits are the connection state's. */
  lemma StatusBits(check: uint16, connectState: uint16)
    ensures var s := Status(check, connectState);
            && s % 0x400 == connectState % 0x400 && s / 0x800 == connectState / 0x800
            && (s / 0x400 % 2 == 1 <==> check / 0x400 % 2 == 1 || connectState / 0x400 % 2 == 1)
  {
  }

  /** The self check is command 0xAAF4; only bytes 22 and 23 of its result change, and only if it was read. */
  lemma CheckedBytes(cmd: uint16, success: bool, data: seq<byte>, connectState: uint16)
    ensures var (answer, r) := Checked(cmd, success, data, connectState);
            && (answer == Failed <==> !success)
            && (answer == Thrown <==> success && cmd == 0xAAF4 && |data| < 24)
            && (answer == Good <==> success && (cmd != 0xAAF4 || |data| >= 24))
            && |r| == |data| && (forall k :: 0 <= k < |r| && k != 22 && k != 23 ==> r[k] == data[k])
            && (if answer == Good && cmd == 0xAAF4 then Of16(r[22..24]) == Status(Of16(data[22..24]), connectState)
                else r == data)
  {
    if success && cmd == 0xAAF4 && |data| >= 24 {
      var status := Status(Of16(data[22..24]), connectState);
      Le16RoundTrip(status, [0, 0]);
      var r := data[..22] + Le16(status) + data[24..];
      hide Status, Le16, Of16;
      assert r[22..24] == Le16(status);
    }
  }

  // ---------------------------------------------------------------- what a successful read proves

  /** A frame arrived, and it passes the check. */
  predicate IsIntact(e: Event) { e.Arrived? && CheckRecvMsg(e.block) }

  predicate IsFinal(e: Event) { IsIntact(e) && e.block.no == 0xFFFC }

  /** The number of the last intact frame. */
  function LastNumber(es: seq<Event>): nat
    decreases |es|
  {
    if es == [] then 0xFFFF
    else
      var e := es[|es| - 1];
      if IsIntact(e) then e.block.no else LastNumber(es[..|es| - 1])
  }

  /** The bytes of the intact frames, repeats in a row apart, counted in 32 bits. */
  function CountedBytes(es: seq<Event>): nat
    decreases |es|
  {
    if es == [] then 0
    else
      var (e, before) := (es[|es| - 1], es[..|es| - 1]);
      if IsIntact(e) && e.block.no != LastNumber(before) then (CountedBytes(before) + |e.block.data|) % 0x1_0000_0000
      else CountedBytes(before)
  }

  function BadFrames(es: seq<Event>): nat
    decreases |es|
  {
    if es == [] then 0 else BadFrames(es[..|es| - 1]) + if IsIntact(es[|es| - 1]) then 0 else 1
  }

  /** The data of the last frame that had any, whether it passed the check or not. */
  function LastData(es: seq<Event>): seq<byte>
    decreases |es|
  {
    if es == [] then []
    else
      var e := es[|es| - 1];
      if e.Arrived? && e.block.data != [] then e.block.data else LastData(es[..|es| - 1])
  }

  /** What the receiver remembers of the events so far. */
  predicate Remembers(st: Receiving, past: seq<Event>) {
    && st.count == CountedBytes(past) && st.lastNo == LastNumber(past) && st.resent == BadFrames(past) <= 3
    && st.held == LastData(past)
  }

  lemma RemembersOne(st: Receiving, past: seq<Event>, e: Event)
    requires Remembers(st, past)
    ensures var (r, now) := (ReceiveOne(st, e), past + [e]);
            && (r.Goes? ==>
                  Remembers(r.next, now) && e.Arrived? && !IsFinal(e) && (!IsIntact(e) ==> e.replied))
            && (r.Ends? && r.outcome == Success ==>
                  IsFinal(e) && CountedBytes(now) >= e.block.total && BadFrames(now) <= 3)
  {
    hide CheckRecvMsg, Set;
    assert (past + [e])[..|past|] == past;
  }

  /** The events up to the final frame of a successful read. */
  predicate Completes(past: seq<Event>, es: seq<Event>, k: nat) {
    && k < |es| && IsFinal(es[k])
    && (forall i :: 0 <= i < k ==> es[i].Arrived? && !IsFinal(es[i]) && (!IsIntact(es[i]) ==> es[i].replied))
    && CountedBytes(past + es[..k + 1]) >= es[k].block.total && BadFrames(past + es[..k + 1]) <= 3
  }

  lemma {:induction false} ReceiveProves(st: Receiving, past: seq<Event>, es: seq<Event>) returns (k: nat)
    requires Remembers(st, past) && Receive(st, es).0 == Success
    ensures Completes(past, es, k)
    decreases |es|
  {
    hide ReceiveOne, IsIntact, IsFinal, CountedBytes, BadFrames, Remembers;
    RemembersOne(st, past, es[0]);
    if ReceiveOne(st, es[0]).Ends? {
      k := 0;
      assert es[..1] == [es[0]];
    } else {
      var (now, later) := (past + [es[0]], es[1..]);
      var j := ReceiveProves(ReceiveOne(st, es[0]).next, now, later);
      k := j + 1;
      assert now + later[..j + 1] == past + es[..k + 1];
      forall i | 0 <= i < k ensures es[i].Arrived? && !IsFinal(es[i]) && (!IsIntact(es[i]) ==> es[i].replied) {
        assert i > 0 ==> es[i] == later[i - 1];
      }
    }
  }

  lemma NothingRemembered()
    ensures Remembers(FRESH, [])
  {
  }

  /**
   A read succeeds only if its command went out and every frame up to one with number 0xFFFC could be read; the bytes
   counted then reach the length that frame tells, at most three frames were bad, and each of them got its NACK.
   */
  lemma SuccessProves(a: Attempt) returns (k: nat)
    requires ExecuteRead(a).0 == Success
    ensures a.sent && Completes([], a.events, k)
  {
    hide Receive, Remembers;
    NothingRemembered();
    k := ReceiveProves(FRESH, [], a.events);
  }

  /**
   Storing an intact frame with a new number: its data, or the last data before it if it has none, go behind what was
   counted, in a buffer as long as the first frame's total, of zeros. It fails exactly if they do not fit.
   */
  lemma StoresBehindCount(st: Receiving, b: Block)
    requires st.lastNo != b.no
    ensures var d := if b.data != [] then b.data else st.held;
            var buffer := if st.recvData == [] then seq(b.total, _ => 0) else st.recvData;
            var (r, end) := (Store(st, b), st.count + |d|);
            && (r.Goes? <==> end <= |buffer|)
            && (r.Goes? ==> r.next.recvData == buffer[..st.count] + d + buffer[end..]
                            && r.next.count == (st.count + |b.data|) % 0x1_0000_0000
                            && r.next.lastNo == b.no && r.next.resent == st.resent && r.next.held == d)
            && (r.Ends? ==> r.recvData == buffer
                            && r.outcome == if end % 0x1_0000_0000 <= |buffer| then Outcome.Overrun else UnknownError)
  {
  }

  /** A repeat of the last number stores nothing, whatever its data. */
  lemma RepeatStoresNothing(st: Receiving, b: Block)
    requires st.lastNo == b.no
    ensures var r := Store(st, b);
            && r.Goes? && r.next.count == st.count && r.next.lastNo == st.lastNo && r.next.resent == st.resent
            && r.next.held == (if b.data != [] then b.data else st.held)
            && r.next.recvData == (if st.recvData == [] then seq(b.total, _ => 0) else st.recvData)
  {
  }

  /** The check of a frame by its fields. */
  lemma FrameCheck(b: Block)
    ensures CheckRecvMsg(b) <==>
              || (b.total == 0 && |b.data| == 0 && b.no == 0xFFFE)
              || (b.total > 0 && |b.data| > 0 && (b.no <= 0xFFF0 || b.no == 0xFFFC))
  {
  }

  /** What is decided stays decided; only a read without an ending so far waits for more. */
  lemma {:induction false} DecidedStays(st: Receiving, x: seq<Event>, y: seq<Event>)
    ensures Receive(st, []).0 == Waiting
    ensures Receive(st, x).0 != Waiting ==> Receive(st, x + y) == Receive(st, x)
    decreases |x|
  {
    hide ReceiveOne;
    if x != [] {
      assert (x + y)[1..] == x[1..] + y;
      var r := ReceiveOne(st, x[0]);
      if r.Goes? {
        DecidedStays(r.next, x[1..], y);
      }
    }
  }

  /** The commands that are written as data, in the order in which the source lists them. */
  lemma WriteCommands(cmd: uint16)
    ensures WritesData(cmd) <==> 0xAAA0 <= cmd <= 0xAAAC || cmd == 0xAAAE || cmd == 0xAAB0 || cmd == 0xAAB1
  {
  }

  /** The commands that are read. */
  lemma ReadCommands(cmd: uint16)
    ensures ReadsData(cmd) <==> 0xAAE1 <= cmd <= 0xAAEC || 0xAAEE <= cmd <= 0xAAFF || 0xAB01 <= cmd <= 0xAB0B
  {
  }

  /** So a read broken off before a final frame never succeeds, nor does one whose command did not go out. */
  lemma BrokenReadFails(a: Attempt, i: nat)
    requires a.sent ==> i < |a.events| && a.events[i].NoRead? && forall j :: 0 <= j < i ==> !IsFinal(a.events[j])
    ensures ExecuteRead(a).0 != Success
  {
    hide ExecuteRead;
    if ExecuteRead(a).0 == Success {
      var k := SuccessProves(a);
      assert false;
    }
  }

  // ---------------------------------------------------------------- reassembly of a sender's blocks

  /** What the receiver sees before the final block: one of the sender's blocks, or a frame that fails the check. */
  datatype Seen = Intact(index: nat, acked: bool) | Garbled(block: Block, nacked: bool)

  predicate Legal(src: payload, seen: seq<Seen>) {
    forall k :: 0 <= k < |seen| ==>
      if seen[k].Intact? then seen[k].index + 1 < BlockCount(src) else !CheckRecvMsg(seen[k].block)
  }

  function EventOf(src: payload, s: Seen): Event
    requires s.Intact? ==> s.index + 1 < BlockCount(src)
  {
    match s
    case Intact(i, acked) => Arrived(BlockOf(src, i), acked)
    case Garbled(b, nacked) => Arrived(b, nacked)
  }

  function EventsOf(src: payload, seen: seq<Seen>): (es: seq<Event>)
    requires Legal(src, seen)
    ensures |es| == |seen|
  {
    seq(|seen|, k requires 0 <= k < |seen| => EventOf(src, seen[k]))
  }

  /** What is seen, then the final block, then whatever else. */
  function Ending(src: payload, seen: seq<Seen>, acked: bool, tail: seq<Event>): seq<Event>
    requires src != [] && Legal(src, seen)
  {
    EventsOf(src, seen) + ([Arrived(BlockOf(src, BlockCount(src) - 1), acked)] + tail)
  }

  /** Every bad frame could be NACKed, and there were at most k of them. */
  predicate AtMostGarbled(seen: seq<Seen>, k: int)
    decreases |seen|
  {
    if seen == [] then k >= 0
    else if seen[0].Intact? then AtMostGarbled(seen[1..], k)
    else seen[0].nacked && k > 0 && AtMostGarbled(seen[1..], k - 1)
  }

  function Taken(ds: seq<nat>, i: nat): seq<nat> { if ds != [] && ds[|ds| - 1] == i then ds else ds + [i] }

  /** The indices seen behind ds, without the repeats that follow one another directly. */
  function WithoutRepeats(ds: seq<nat>, seen: seq<Seen>): (r: seq<nat>)
    ensures |r| >= |ds|
    decreases |seen|
  {
    if seen == [] then ds
    else WithoutRepeats(if seen[0].Intact? then Taken(ds, seen[0].index) else ds, seen[1..])
  }

  /** None of these is the final block. */
  predicate Inner(src: payload, ds: seq<nat>) { forall k :: 0 <= k < |ds| ==> ds[k] + 1 < BlockCount(src) }

  function Full(src: payload, i: nat): (s: seq<byte>)
    requires i + 1 < BlockCount(src)
    ensures |s| == MAX_BLOCK
  {
    src[i * MAX_BLOCK..(i + 1) * MAX_BLOCK]
  }

  function LastPart(src: payload): seq<byte>
    requires src != []
  {
    src[(BlockCount(src) - 1) * MAX_BLOCK..]
  }

  /** The bytes of these blocks one behind another. */
  function Joined(src: payload, ds: seq<nat>): (s: seq<byte>)
    requires Inner(src, ds)
    ensures |s| == |ds| * MAX_BLOCK
    decreases |ds|
  {
    if ds == [] then [] else Joined(src, ds[..|ds| - 1]) + Full(src, ds[|ds| - 1])
  }

  /** The receiver has stored these blocks one behind another. */
  ghost predicate Stored(src: payload, st: Receiving, ds: seq<nat>) {
    && Inner(src, ds) && st.lastNo == (if ds == [] then NO_BLOCK else ds[|ds| - 1])
    && |st.recvData| == (if ds == [] then 0 else |src|)
    && st.count == |ds| * MAX_BLOCK <= |src| && (ds != [] ==> st.recvData[..st.count] == Joined(src, ds))
  }

  lemma BlockShape(src: payload, i: nat)
    requires i + 1 < BlockCount(src)
    ensures var b := BlockOf(src, i);
            CheckRecvMsg(b) && b.total == |src| && b.no == i && b.data == Full(src, i)
  {
  }

  lemma StoreRepeat(src: payload, st: Receiving, ds: seq<nat>, b: Block)
    requires Stored(src, st, ds) && ds != [] && b.no == ds[|ds| - 1]
    ensures var r := Store(st, b); r.Goes? && r.next.resent == st.resent && Stored(src, r.next, ds)
  {
    hide Joined, BlockCount, Inner;
  }

  /** Room is missing: the guard throws, or its sum has wrapped. */
  lemma StoreOverflows(st: Receiving, b: Block)
    requires st.lastNo != b.no && b.data != [] && |Resized(st.recvData, b.total)| == b.total < st.count + |b.data|
    ensures Store(st, b).Ends?
  {
    hide Resized;
  }

  lemma StoredMore(src: payload, st: Receiving, ds: seq<nat>, i: nat)
    requires Inner(src, ds) && i + 1 < BlockCount(src) && st.lastNo == i && |st.recvData| == |src|
    requires st.count == (|ds| + 1) * MAX_BLOCK <= |src| && st.recvData[..st.count] == Joined(src, ds) + Full(src, i)
    ensures Stored(src, st, ds + [i])
  {
    hide Full, BlockCount;
    assert (ds + [i])[..|ds|] == ds;
  }

  /** A block is stored behind the others unless it repeats the last one; the read ends where there is no room. */
  lemma StoreIntact(src: payload, st: Receiving, ds: seq<nat>, i: nat)
    requires Stored(src, st, ds) && i + 1 < BlockCount(src)
    ensures var (r, taken) := (Store(st, BlockOf(src, i)), Taken(ds, i));
            && CheckRecvMsg(BlockOf(src, i))
            && (|taken| * MAX_BLOCK <= |src| ==> r.Goes? && r.next.resent == st.resent && Stored(src, r.next, taken))
            && (|taken| * MAX_BLOCK > |src| ==> r.Ends?)
  {
    var b := BlockOf(src, i);
    BlockShape(src, i);
    StoredFacts(src, st, ds);
    hide Store, Stored, BlockOf, BlockCount, Joined, Full, Resized, CheckRecvMsg;
    if Taken(ds, i) == ds {
      StoreRepeat(src, st, ds, b);
    } else if (|ds| + 1) * MAX_BLOCK <= |src| {
      StoreBehind(st, b, Joined(src, ds));
      StoredMore(src, Store(st, b).next, ds, i);
    } else {
      StoreOverflows(st, b);
    }
  }

  /** The final block and where it would go; no count of blocks stored exceeds that of the data. */
  lemma LastShape(src: payload)
    requires src != []
    ensures var (n, last) := (BlockCount(src), BlockOf(src, BlockCount(src) - 1));
            && CheckRecvMsg(last) && last.total == |src| && last.no == LAST_BLOCK && last.data == LastPart(src)
            && 0 < |last.data| <= MAX_BLOCK && (n - 1) * MAX_BLOCK + |last.data| == |src|
  {
  }

  lemma StoreFinalFits(src: payload, st: Receiving, ds: seq<nat>, last: Block)
    requires Stored(src, st, ds) && src != [] && last.no == LAST_BLOCK && last.total == |src|
             && last.data == LastPart(src)
    requires last.data != [] && (BlockCount(src) - 1) * MAX_BLOCK + |last.data| == |src| && |ds| <= BlockCount(src) - 1
    ensures var r := Store(st, last);
            && r.Goes? && r.next.count == |ds| * MAX_BLOCK + |last.data|
            && (|ds| == BlockCount(src) - 1 ==> r.next.recvData == Joined(src, ds) + LastPart(src))
  {
    StoredFacts(src, st, ds);
    hide BlockCount, LastPart, Joined, Store, Stored, Inner, Resized;
    StoreBehind(st, last, Joined(src, ds));
  }

  lemma StoredFacts(src: payload, st: Receiving, ds: seq<nat>)
    requires Stored(src, st, ds) && src != []
    ensures Inner(src, ds) && st.lastNo == (if ds == [] then NO_BLOCK else ds[|ds| - 1]) && st.lastNo != LAST_BLOCK
    ensures st.count == |ds| * MAX_BLOCK <= |src|
    ensures |Resized(st.recvData, |src|)| == |src| && Resized(st.recvData, |src|)[..st.count] == Joined(src, ds)
  {
  }

  /** A new number: the data go behind the bytes counted so far. */
  lemma StoreBehind(st: Receiving, b: Block, done: seq<byte>)
    requires st.lastNo != b.no && b.data != [] && |Resized(st.recvData, b.total)| == b.total
    requires st.count + |b.data| <= b.total && Resized(st.recvData, b.total)[..st.count] == done
    ensures var r := Store(st, b);
            && r.Goes? && r.next.count == st.count + |b.data| && r.next.lastNo == b.no && r.next.resent == st.resent
            && |r.next.recvData| == b.total && r.next.recvData[..r.next.count] == done + b.data
            && (st.count + |b.data| == b.total ==> r.next.recvData == done + b.data)
  {
    hide Resized;
    var next := Store(st, b).next;
    assert next.recvData == done + b.data + Resized(st.recvData, b.total)[st.count + |b.data|..];
  }

  lemma StoreFinal(src: payload, st: Receiving, ds: seq<nat>)
    requires Stored(src, st, ds) && src != []
    ensures var (n, last) := (BlockCount(src), BlockOf(src, BlockCount(src) - 1));
            var r := Store(st, last);
            && CheckRecvMsg(last) && last.total == |src|
            && (|ds| > n - 1 ==> r.Ends?)
            && (|ds| <= n - 1 ==> r.Goes? && (r.next.count >= |src| <==> |ds| == n - 1))
            && (|ds| == n - 1 ==> r.next.recvData == Joined(src, ds) + LastPart(src))
  {
    LastShape(src);
    hide BlockOf, BlockCount, Store, Stored, Joined, LastPart, CheckRecvMsg, Resized;
    var last := BlockOf(src, BlockCount(src) - 1);
    if |ds| <= BlockCount(src) - 1 {
      StoreFinalFits(src, st, ds, last);
    } else {
      StoredFacts(src, st, ds);
      StoreOverflows(st, last);
    }
  }

  lemma GarbledKeepsStored(src: payload, st: Receiving, ds: seq<nat>, b: Block)
    requires Stored(src, st, ds) && !CheckRecvMsg(b) && st.resent < 3
    ensures var r := ReceiveOne(st, Arrived(b, true));
            r.Goes? && r.next.resent == st.resent + 1 && Stored(src, r.next, ds)
  {
  }

  lemma ReceiveStep(st: Receiving, e: Event, later: seq<Event>)
    ensures var r := ReceiveOne(st, e);
            Receive(st, [e] + later) == if r.Goes? then Receive(r.next, later) else (r.outcome, r.recvData)
  {
    assert ([e] + later)[1..] == later;
  }

  lemma EndingStep(src: payload, seen: seq<Seen>, acked: bool, tail: seq<Event>)
    requires src != [] && Legal(src, seen) && seen != []
    ensures Legal(src, seen[1..])
    ensures Ending(src, seen, acked, tail) == [EventOf(src, seen[0])] + Ending(src, seen[1..], acked, tail)
  {
    hide EventOf;
  }

  /** More blocks than the data have leave no way to a success. */
  lemma NoRoom(src: payload, ds: seq<nat>)
    requires src != [] && |ds| * MAX_BLOCK > |src|
    ensures |ds| > BlockCount(src) - 1
  {
  }

  lemma {:induction false} AnyOrderFrom(src: payload, st: Receiving, ds: seq<nat>, seen: seq<Seen>, acked: bool,
        tail: seq<Event>)
    requires Stored(src, st, ds) && src != [] && Legal(src, seen) && st.resent <= 3
    ensures var (outcome, data) := Receive(st, Ending(src, seen, acked, tail));
            var all := WithoutRepeats(ds, seen);
            && Inner(src, all) && outcome != Waiting
            && (outcome == Success <==> AtMostGarbled(seen, 3 - st.resent) && |all| == BlockCount(src) - 1)
            && (outcome == Success ==> data == Joined(src, all) + LastPart(src))
    decreases |seen|
  {
    hide Store, BlockOf, CheckRecvMsg, Stored, BlockCount, Receive, Joined, LastPart, Ending;
    if seen == [] {
      FinalEnds(src, st, ds, acked, tail);
    } else {
      var later := Ending(src, seen[1..], acked, tail);
      EndingStep(src, seen, acked, tail);
      ReceiveStep(st, EventOf(src, seen[0]), later);
      match seen[0]
      case Garbled(b, nacked) =>
        AllInner(src, ds, seen[1..], st);
        if nacked && st.resent < 3 {
          GarbledKeepsStored(src, st, ds, b);
          AnyOrderFrom(src, ReceiveOne(st, EventOf(src, seen[0])).next, ds, seen[1..], acked, tail);
        }
      case Intact(i, a) =>
        StoreIntact(src, st, ds, i);
        if |Taken(ds, i)| * MAX_BLOCK <= |src| {
          AnyOrderFrom(src, Store(st, BlockOf(src, i)).next, Taken(ds, i), seen[1..], acked, tail);
        } else {
          NoRoom(src, Taken(ds, i));
          AllInner(src, ds, seen, st);
        }
    }
  }

  lemma FinalEnds(src: payload, st: Receiving, ds: seq<nat>, acked: bool, tail: seq<Event>)
    requires Stored(src, st, ds) && src != []
    ensures var (outcome, data) := Receive(st, Ending(src, [], acked, tail));
            && Inner(src, ds) && outcome != Waiting && (outcome == Success <==> |ds| == BlockCount(src) - 1)
            && (outcome == Success ==> data == Joined(src, ds) + LastPart(src))
  {
    StoreFinal(src, st, ds);
    hide Store, CheckRecvMsg, BlockCount, Receive, Joined, LastPart;
    var last := Arrived(BlockOf(src, BlockCount(src) - 1), acked);
    assert Ending(src, [], acked, tail) == [last] + tail;
    ReceiveStep(st, last, tail);
  }

  lemma {:induction false} AllInner(src: payload, ds: seq<nat>, seen: seq<Seen>, st: Receiving)
    requires Stored(src, st, ds) && Legal(src, seen)
    ensures Inner(src, WithoutRepeats(ds, seen))
  {
    InnerKept(src, ds, seen);
  }

  lemma {:induction false} InnerKept(src: payload, ds: seq<nat>, seen: seq<Seen>)
    requires Inner(src, ds) && Legal(src, seen)
    ensures Inner(src, WithoutRepeats(ds, seen))
    decreases |seen|
  {
    hide BlockCount, CheckRecvMsg;
    if seen != [] {
      InnerKept(src, if seen[0].Intact? then Taken(ds, seen[0].index) else ds, seen[1..]);
    }
  }

  lemma FreshIsStored(src: payload)
    ensures Stored(src, FRESH, [])
  {
  }

  /**
   Blocks in any order, among frames that fail the check, then the final block: the read succeeds exactly if, repeats in
   a row apart, as many blocks came before it as the data have, at most three frames were bad and each could be NACKed.
   The buffer then holds those blocks in the order in which they came.
   */
  lemma AnyOrder(src: payload, seen: seq<Seen>, acked: bool, tail: seq<Event>)
    requires src != [] && Legal(src, seen)
    ensures var (outcome, data) := ExecuteRead(Attempt(true, Ending(src, seen, acked, tail)));
            var ds := WithoutRepeats([], seen);
            && Inner(src, ds) && outcome != Waiting
            && (outcome == Success <==> AtMostGarbled(seen, 3) && |ds| == BlockCount(src) - 1)
            && (outcome == Success ==>
                  && data == Joined(src, ds) + LastPart(src)
                  && (data == src <==> SameBytes(src, ds)))
  {
    hide Receive, Stored, Ending, BlockCount, Legal, Inner;
    FreshIsStored(src);
    AnyOrderFrom(src, FRESH, [], seen, acked, tail);
    var ds := WithoutRepeats([], seen);
    if |ds| == BlockCount(src) - 1 {
      JoinedIsData(src, ds);
    }
  }

  // ---------------------------------------------------------------- which orders give the data back

  lemma {:induction false} JoinedAt(src: payload, ds: seq<nat>, k: nat)
    requires Inner(src, ds) && k < |ds|
    ensures Joined(src, ds)[k * MAX_BLOCK..(k + 1) * MAX_BLOCK] == Full(src, ds[k])
    decreases |ds|
  {
    var init := ds[..|ds| - 1];
    if k < |init| {
      JoinedAt(src, init, k);
      assert Joined(src, ds)[k * MAX_BLOCK..(k + 1) * MAX_BLOCK]
          == Joined(src, init)[k * MAX_BLOCK..(k + 1) * MAX_BLOCK];
    } else {
      assert Joined(src, ds)[k * MAX_BLOCK..(k + 1) * MAX_BLOCK] == Full(src, ds[k]);
    }
  }

  lemma {:induction false} JoinedPrefix(src: payload, ds: seq<nat>)
    requires Inner(src, ds) && |ds| < BlockCount(src)
    requires forall k :: 0 <= k < |ds| ==> Full(src, ds[k]) == src[k * MAX_BLOCK..(k + 1) * MAX_BLOCK]
    ensures Joined(src, ds) == src[..|ds| * MAX_BLOCK]
    decreases |ds|
  {
    if ds != [] {
      var k := |ds| - 1;
      JoinedPrefix(src, ds[..k]);
      assert src[..k * MAX_BLOCK] + src[k * MAX_BLOCK..(k + 1) * MAX_BLOCK] == src[..|ds| * MAX_BLOCK];
    }
  }

  /** Each of these blocks carries the bytes of the block whose turn it was. */
  predicate SameBytes(src: payload, ds: seq<nat>)
    requires Inner(src, ds) && |ds| < BlockCount(src)
  {
    forall k :: 0 <= k < |ds| ==> Full(src, ds[k]) == Full(src, k)
  }

  lemma DataMeansSameBytes(src: payload, ds: seq<nat>)
    requires Inner(src, ds) && src != [] && |ds| == BlockCount(src) - 1 && Joined(src, ds) + LastPart(src) == src
    ensures SameBytes(src, ds)
  {
    hide BlockCount, Joined, LastPart;
    forall k | 0 <= k < |ds| ensures Full(src, ds[k]) == Full(src, k) {
      JoinedAt(src, ds, k);
      assert (Joined(src, ds) + LastPart(src))[k * MAX_BLOCK..(k + 1) * MAX_BLOCK]
          == Joined(src, ds)[k * MAX_BLOCK..(k + 1) * MAX_BLOCK];
    }
  }

  lemma JoinedIsData(src: payload, ds: seq<nat>)
    requires Inner(src, ds) && src != [] && |ds| == BlockCount(src) - 1
    ensures Joined(src, ds) + LastPart(src) == src <==> SameBytes(src, ds)
  {
    if Joined(src, ds) + LastPart(src) == src {
      DataMeansSameBytes(src, ds);
    }
    if SameBytes(src, ds) {
      JoinedPrefix(src, ds);
      assert src == src[..|ds| * MAX_BLOCK] + src[|ds| * MAX_BLOCK..];
    }
  }

  /** Block indices never go back; repeats and skips are allowed. */
  predicate Ordered(seen: seq<Seen>) {
    forall i, k :: 0 <= i < k < |seen| && seen[i].Intact? && seen[k].Intact? ==> seen[i].index <= seen[k].index
  }

  predicate Passed(seen: seq<Seen>, k: nat) { exists a :: 0 <= a < |seen| && seen[a].Intact? && seen[a].index == k }

  predicate Has(ds: seq<nat>, k: nat) { exists a :: 0 <= a < |ds| && ds[a] == k }

  predicate Increasing(ds: seq<nat>) { forall i, k :: 0 <= i < k < |ds| ==> ds[i] < ds[k] }

  lemma TakenHas(ds: seq<nat>, i: nat, k: nat)
    ensures Has(Taken(ds, i), k) <==> Has(ds, k) || i == k
  {
    if Has(ds, k) {
      var a :| 0 <= a < |ds| && ds[a] == k;
      assert Taken(ds, i)[a] == k;
    }
    if i == k {
      assert Taken(ds, i)[|Taken(ds, i)| - 1] == k;
    }
  }

  lemma PassedStep(seen: seq<Seen>, k: nat)
    requires seen != []
    ensures Passed(seen, k) <==> (seen[0].Intact? && seen[0].index == k) || Passed(seen[1..], k)
  {
    if Passed(seen[1..], k) {
      var a :| 0 <= a < |seen[1..]| && seen[1..][a].Intact? && seen[1..][a].index == k;
      assert seen[a + 1] == seen[1..][a];
    }
    if Passed(seen, k) {
      var a :| 0 <= a < |seen| && seen[a].Intact? && seen[a].index == k;
      assert a > 0 ==> seen[1..][a - 1] == seen[a];
    }
  }

  lemma {:induction false} MembersKept(ds: seq<nat>, seen: seq<Seen>, k: nat)
    ensures Has(WithoutRepeats(ds, seen), k) <==> Has(ds, k) || Passed(seen, k)
    decreases |seen|
  {
    hide Has, Taken;
    if seen == [] {
      assert !Passed([], k);
    } else {
      hide Passed;
      PassedStep(seen, k);
      if seen[0].Intact? {
        TakenHas(ds, seen[0].index, k);
        MembersKept(Taken(ds, seen[0].index), seen[1..], k);
      } else {
        MembersKept(ds, seen[1..], k);
      }
    }
  }

  lemma {:induction false} OrderKept(ds: seq<nat>, seen: seq<Seen>)
    requires Increasing(ds) && Ordered(seen)
    requires forall k :: 0 <= k < |seen| && seen[k].Intact? && ds != [] ==> ds[|ds| - 1] <= seen[k].index
    ensures Increasing(WithoutRepeats(ds, seen))
    decreases |seen|
  {
    if seen != [] {
      assert forall k :: 0 <= k < |seen[1..]| ==> seen[1..][k] == seen[k + 1];
      OrderKept(if seen[0].Intact? then Taken(ds, seen[0].index) else ds, seen[1..]);
    }
  }

  /** An increasing sequence below m has m members exactly if it has all of them, and then it counts up from zero. */
  lemma {:induction false} IncreasingFills(ds: seq<nat>, m: nat)
    requires Increasing(ds) && forall k :: 0 <= k < |ds| ==> ds[k] < m
    ensures |ds| <= m && (|ds| == m <==> forall k :: 0 <= k < m ==> Has(ds, k))
    ensures |ds| == m ==> forall k :: 0 <= k < m ==> ds[k] == k
    decreases m
  {
    if m == 0 {
    } else if ds != [] && ds[|ds| - 1] == m - 1 {
      var init := ds[..|ds| - 1];
      IncreasingFills(init, m - 1);
      assert ds == init + [m - 1];
      forall k | 0 <= k < m ensures Has(ds, k) <==> k == m - 1 || Has(init, k) {
        InitHas(init, m - 1, k);
      }
      if forall k :: 0 <= k < m ==> Has(ds, k) {
        forall k | 0 <= k < m - 1 ensures Has(init, k) {
          assert Has(ds, k);
        }
      }
    } else {
      assert forall k :: 0 <= k < |ds| ==> ds[k] < m - 1;
      IncreasingFills(ds, m - 1);
      assert !Has(ds, m - 1);
    }
  }

  lemma InitHas(init: seq<nat>, last: nat, k: nat)
    ensures Has(init + [last], k) <==> k == last || Has(init, k)
  {
    if Has(init, k) {
      var a :| 0 <= a < |init| && init[a] == k;
      assert (init + [last])[a] == k;
    }
    if k == last {
      assert (init + [last])[|init|] == k;
    }
  }

  /** Every block except the final one was seen. */
  predicate Covers(seen: seq<Seen>, n: nat) { forall k :: 0 <= k < n - 1 ==> Passed(seen, k) }

  lemma CoversIsCount(src: payload, seen: seq<Seen>)
    requires src != [] && Legal(src, seen) && Ordered(seen)
    ensures var ds := WithoutRepeats([], seen);
            && (|ds| == BlockCount(src) - 1 <==> Covers(seen, BlockCount(src)))
            && (|ds| == BlockCount(src) - 1 ==> forall k :: 0 <= k < |ds| ==> ds[k] == k)
  {
    var (ds, m) := (WithoutRepeats([], seen), BlockCount(src) - 1);
    InnerKept(src, [], seen);
    OrderKept([], seen);
    hide WithoutRepeats, Passed, BlockCount, Legal, Ordered;
    IncreasingFills(ds, m);
    forall k: nat | 0 <= k < m ensures Has(ds, k) <==> Passed(seen, k) {
      MembersKept([], seen, k);
    }
  }

  /**
   Reassembly: blocks in order, repeated and skipped at will, among frames that fail the check; then the final block.
   The read succeeds exactly if no block was skipped, at most three frames were bad and each could be NACKed; then the
   buffer is src.
   */
  lemma Reassembly(src: payload, seen: seq<Seen>, acked: bool, tail: seq<Event>)
    requires src != [] && Legal(src, seen) && Ordered(seen)
    ensures var (outcome, data) := ExecuteRead(Attempt(true, Ending(src, seen, acked, tail)));
            && (outcome == Success <==> AtMostGarbled(seen, 3) && Covers(seen, BlockCount(src)))
            && (outcome == Success ==> data == src) && outcome != Waiting
  {
    hide ExecuteRead, Ending, Legal, Ordered, Covers, BlockCount, Full, WithoutRepeats;
    AnyOrder(src, seen, acked, tail);
    CoversIsCount(src, seen);
  }

  /** The final block does not prove order: of three blocks the first two may come swapped, and are taken so. */
  lemma SwappedBlocksAreTaken(src: payload)
    requires BlockCount(src) == 3
    ensures var seen := [Intact(1, true), Intact(0, true)];
            var (outcome, data) := ExecuteRead(Attempt(true, Ending(src, seen, true, [])));
            && outcome == Success && data == Full(src, 1) + Full(src, 0) + LastPart(src)
            && (data == src <==> Full(src, 0) == Full(src, 1))
  {
    var seen := [Intact(1, true), Intact(0, true)];
    SwappedSeen(src);
    JoinedOfTwo(src);
    hide *;
    AnyOrder(src, seen, true, []);
  }

  lemma SwappedSeen(src: payload)
    requires BlockCount(src) == 3
    ensures var seen := [Intact(1, true), Intact(0, true)];
            src != [] && Legal(src, seen) && WithoutRepeats([], seen) == [1, 0] && AtMostGarbled(seen, 3)
                && Inner(src, [1, 0])
  {
    var seen := [Intact(1, true), Intact(0, true)];
    assert seen[1..] == [Intact(0, true)] && seen[1..][1..] == [];
  }

  lemma JoinedOfTwo(src: payload)
    requires BlockCount(src) == 3
    ensures Joined(src, [1, 0]) == Full(src, 1) + Full(src, 0)
    ensures SameBytes(src, [1, 0]) <==> Full(src, 0) == Full(src, 1)
  {
    hide Full;
    var two: seq<nat>, one: seq<nat> := [1, 0], [1];
    assert two[..1] == one && one[..0] == [];
    assert Joined(src, one) == [] + Full(src, 1) == Full(src, 1);
    assert Full(src, two[0]) == Full(src, 1) && Full(src, two[1]) == Full(src, 0);
  }

  // ---------------------------------------------------------------- what a write sends

  /** The events of blocks that arrive as they were sent; acked says which replies go out. */
  function Arrivals(blocks: seq<Block>, acked: nat -> bool): (es: seq<Event>)
    ensures |es| == |blocks|
  {
    seq(|blocks|, k requires 0 <= k < |blocks| => Arrived(blocks[k], acked(k)))
  }

  predicate Carry(es: seq<Event>, blocks: seq<Block>) {
    |es| == |blocks| && forall k :: 0 <= k < |es| ==> es[k].Arrived? && es[k].block == blocks[k]
  }

  lemma CarryCut(es: seq<Event>, p: seq<Block>, q: seq<Block>)
    requires Carry(es, p + q)
    ensures |p| <= |es| && es == es[..|p|] + es[|p|..] && Carry(es[..|p|], p) && Carry(es[|p|..], q)
  {
    assert forall k :: 0 <= k < |p| ==> es[..|p|][k] == es[k] && (p + q)[k] == p[k];
    assert forall k :: 0 <= k < |q| ==> es[|p|..][k] == es[|p| + k] && (p + q)[|p| + k] == q[k];
  }

  /** The receiver has stored the first j blocks. */
  ghost predicate FirstStored(src: payload, st: Receiving, j: nat) {
    j < BlockCount(src) && Stored(src, st, seq(j, k => k))
  }

  lemma StoreNext(src: payload, st: Receiving, j: nat)
    requires j + 1 < BlockCount(src) && (FirstStored(src, st, j) || FirstStored(src, st, j + 1))
    ensures var r := Store(st, BlockOf(src, j));
            CheckRecvMsg(BlockOf(src, j)) && r.Goes? && FirstStored(src, r.next, j + 1)
  {
    hide Store, BlockOf, CheckRecvMsg, Stored;
    var first: seq<nat> := seq(j, k => k);
    assert seq(j + 1, k => k) == first + [j];
    StoreIntact(src, st, if FirstStored(src, st, j) then first else first + [j], j);
  }

  lemma {:induction false} CopiesOfOneBlock(src: payload, st: Receiving, j: nat, t: nat, es: seq<Event>,
        later: seq<Event>)
    returns (next: Receiving)
    requires j + 1 < BlockCount(src) && Carry(es, Repeat(BlockOf(src, j), t))
    requires FirstStored(src, st, j + 1) || (FirstStored(src, st, j) && t > 0)
    ensures FirstStored(src, next, j + 1) && Receive(st, es + later) == Receive(next, later)
    decreases t
  {
    hide Store, BlockOf, CheckRecvMsg, FirstStored, BlockCount, Receive;
    if t == 0 {
      next := st;
      assert es + later == later;
    } else {
      StoreNext(src, st, j);
      ReceiveStep(st, es[0], es[1..] + later);
      assert es + later == [es[0]] + (es[1..] + later);
      next := CopiesOfOneBlock(src, Store(st, BlockOf(src, j)).next, j, t - 1, es[1..], later);
    }
  }

  lemma FinalReceived(src: payload, st: Receiving, es: seq<Event>)
    requires BlockCount(src) > 0 && FirstStored(src, st, BlockCount(src) - 1)
    requires es != [] && es[0].Arrived? && es[0].block == BlockOf(src, BlockCount(src) - 1)
    ensures Receive(st, es) == (Success, src)
  {
    hide Store, BlockOf, CheckRecvMsg, Receive, Joined, LastPart, Stored, Full;
    var ds: seq<nat> := seq(BlockCount(src) - 1, k => k);
    assert Inner(src, ds);
    StoreFinal(src, st, ds);
    JoinedIsData(src, ds);
    ReceiveStep(st, es[0], es[1..]);
    assert es == [es[0]] + es[1..];
  }

  lemma {:induction false} SentIsReceivedFrom(src: payload, tries: Tries, st: Receiving, j: nat, es: seq<Event>)
    requires FirstStored(src, st, j) && forall k :: j <= k < BlockCount(src) ==> Accepted(tries, k)
    requires j <= BlockCount(src) && Carry(es, SentFrom(src, tries, j))
    ensures Receive(st, es) == (Success, src)
    decreases BlockCount(src) - j
  {
    hide *;
    FirstStoredBound(src, st, j);
    SentAfterBlock(src, tries, j, []);
    AcceptedIs(tries, j);
    AcceptedLeavesCopy(tries, j, 0);
    var t := CopiesFrom(tries, j, 0);
    var copies := Repeat(BlockOf(src, j), t);
    var later := if Accepted(tries, j) then SentFrom(src, tries, j + 1) else [];
    assert [] + SentFrom(src, tries, j) == SentFrom(src, tries, j) == copies + later;
    CarryCut(es, copies, later);
    if j == BlockCount(src) - 1 {
      CarryFirst(es[..t], copies);
      FinalReceived(src, st, es);
    } else {
      var next := CopiesOfOneBlock(src, st, j, t, es[..t], es[t..]);
      SentIsReceivedFrom(src, tries, next, j + 1, es[t..]);
    }
  }

  lemma FirstStoredBound(src: payload, st: Receiving, j: nat)
    requires FirstStored(src, st, j)
    ensures j < BlockCount(src)
  {
  }

  lemma CarryFirst(es: seq<Event>, blocks: seq<Block>)
    requires Carry(es, blocks) && blocks != []
    ensures es != [] && es[0].Arrived? && es[0].block == blocks[0]
  {
  }

  /**
   Whatever rounds a successful write needed, every copy sent inside a try and every repeated try included, a receiver
   of the same protocol rebuilds the data from the blocks put on the link.
   */
  lemma SentIsReceived(src: payload, tries: Tries, acked: nat -> bool)
    requires src != [] && AnswerOf(tries, BlockCount(src)) == Good
    ensures ExecuteRead(Attempt(true, Arrivals(SentFrom(src, tries, 0), acked))) == (Success, src)
  {
    assert FirstStored(src, FRESH, 0);
    AllAcceptedIsGood(tries, BlockCount(src));
    hide FirstStored, Receive, SentFrom, Accepted, AnswerOf;
    SentIsReceivedFrom(src, tries, FRESH, 0, Arrivals(SentFrom(src, tries, 0), acked));
  }
}
