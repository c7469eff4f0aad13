/**
 * One range scan (BridgeEventScanner.scan_blocks): an empty range is answered
 * without asking the ledger; otherwise a single get_logs query is issued and the
 * logs it returns are decoded in the order returned. Any exception, from the
 * query or from decoding any one log, turns the whole result into an empty list.
 * The ledger is not modelled; its answer to the query is a parameter.
 */
module Scanner {
  import opened Wrappers
  import opened LogDecoder

  /** The filter passed to get_logs: an inclusive block range, the bridge
      contract's address and the event signature topic. */
  datatype LogFilter = LogFilter(fromBlock: int, toBlock: int, address: string, topics: seq<Word>)

  /** The ledger's answer to a get_logs query: the matching logs, BlockNotFound
      for a range the node has not reached, or any other exception. */
  datatype QueryOutcome = Logs(logs: seq<RawLog>) | BlockNotFound | QueryError

  /** The query issued (if any) and the decoded events returned. */
  datatype ScanResult = ScanResult(query: Option<LogFilter>, events: seq<DecodedEvent>)

  /** The list comprehension over the logs: the decoded records in order, or None
      as soon as one of them fails to decode. */
  function ParseAll(logs: seq<RawLog>): (r: Option<seq<DecodedEvent>>)
    ensures r.Some? <==> forall i :: 0 <= i < |logs| ==> ParseLog(logs[i]).Success?
    ensures r.Some? ==> |r.value| == |logs|
    ensures r.Some? ==> forall i :: 0 <= i < |logs| ==> ParseLog(logs[i]) == Success(r.value[i])
  {
    if |logs| == 0 then Some([])
    else
      var head := ParseLog(logs[0]);
      if head.Failure? then None
      else
        var tail := ParseAll(logs[1..]);
        if tail.None? then
          TailFailureFails(logs);
          None
        else
          DecodedCons(ParseLog, logs, head.value, tail.value);
          Some([head.value] + tail.value)
  }

  /** A log after the first that does not decode is a log that does not decode. */
  lemma TailFailureFails(logs: seq<RawLog>)
    requires |logs| > 0
    requires !forall i :: 0 <= i < |logs| - 1 ==> ParseLog(logs[1..][i]).Success?
    ensures !forall i :: 0 <= i < |logs| ==> ParseLog(logs[i]).Success?
  {
    var i :| 0 <= i < |logs| - 1 && !ParseLog(logs[1..][i]).Success?;
    assert logs[1..][i] == logs[i + 1];
  }

  /** Decoding the first element and decoding the rest, each pointwise, is
      decoding the whole sequence pointwise. */
  lemma DecodedCons<T, U, E>(decode: T -> Result<U, E>, xs: seq<T>, y: U, ys: seq<U>)
    requires |xs| > 0 && decode(xs[0]) == Success(y) && |ys| == |xs| - 1
    requires forall i :: 0 <= i < |ys| ==> decode(xs[1..][i]) == Success(ys[i])
    ensures forall i :: 0 <= i < |xs| ==> decode(xs[i]) == Success(([y] + ys)[i])
  {
    forall i | 1 <= i < |xs| ensures decode(xs[i]) == Success(([y] + ys)[i]) {
      assert xs[1..][i - 1] == xs[i];
    }
  }

  /** A batch of one log that decodes gives exactly its decoding. */
  lemma ParseAllSingle(log: RawLog)
    requires ParseLog(log).Success?
    ensures ParseAll([log]) == Some([ParseLog(log).value])
  {
    var e := ParseLog(log).value;
    assert [log][0] == log && [log][1..] == [];
    assert ParseAll([]) == Some([]);
    assert [e] + [] == [e];
  }

  /** An empty range issues no query and yields nothing; a non-empty one issues
      exactly the query for that range, contract and topic, and yields either
      nothing or the decoding of every log the ledger returned. */
  function ScanBlocks(
    contractAddress: string, eventTopic: Word, fromBlock: int, toBlock: int,
    ledger: QueryOutcome): (r: ScanResult)
    ensures fromBlock > toBlock ==> r == ScanResult(None, [])
    ensures fromBlock <= toBlock ==>
      r.query == Some(LogFilter(fromBlock, toBlock, contractAddress, [eventTopic]))
    ensures r.events == [] || (ledger.Logs? && ParseAll(ledger.logs) == Some(r.events))
  {
    if fromBlock > toBlock then ScanResult(None, [])
    else
      var query := Some(LogFilter(fromBlock, toBlock, contractAddress, [eventTopic]));
      match ledger
      case Logs(logs) =>
        if |logs| == 0 then ScanResult(query, [])
        else ScanResult(query, match ParseAll(logs) case Some(events) => events case None => [])
      case BlockNotFound => ScanResult(query, [])
      case QueryError => ScanResult(query, [])
  }

  /** When the query succeeds and every log decodes, the result holds one event
      per log, in the ledger's order, each carrying its log's transaction hash
      and block number. */
  lemma ScanKeepsLedgerOrder(
    contractAddress: string, eventTopic: Word, fromBlock: int, toBlock: int, logs: seq<RawLog>)
    requires fromBlock <= toBlock
    requires forall i :: 0 <= i < |logs| ==> |logs[i].topics| >= 4
    ensures var events := ScanBlocks(contractAddress, eventTopic, fromBlock, toBlock, Logs(logs)).events;
      |events| == |logs| &&
      forall i :: 0 <= i < |logs| ==>
        ParseLog(logs[i]) == Success(events[i]) &&
        events[i].transactionHash == logs[i].transactionHash &&
        events[i].blockNumber == logs[i].blockNumber
  {
    assert forall i :: 0 <= i < |logs| ==> ParseLog(logs[i]).Success?;
  }

  /** All or nothing: the batch is empty exactly when the range is empty, the
      query fails, the ledger has no logs, or a single log does not decode. */
  lemma ScanAllOrNothing(
    contractAddress: string, eventTopic: Word, fromBlock: int, toBlock: int,
    ledger: QueryOutcome)
    ensures var events := ScanBlocks(contractAddress, eventTopic, fromBlock, toBlock, ledger).events;
      events == [] <==>
        fromBlock > toBlock || !ledger.Logs? || |ledger.logs| == 0 ||
        exists i :: 0 <= i < |ledger.logs| && |ledger.logs[i].topics| < 4
  {
    if fromBlock <= toBlock && ledger.Logs? && forall i :: 0 <= i < |ledger.logs| ==> |ledger.logs[i].topics| >= 4 {
      ScanKeepsLedgerOrder(contractAddress, eventTopic, fromBlock, toBlock, ledger.logs);
    }
  }

  /** A batch of three logs whose middle one has too few topics yields no events
      at all, although the other two decode. */
  lemma MalformedMiddleLogDropsBatch(
    contractAddress: string, eventTopic: Word, fromBlock: int, toBlock: int,
    first: RawLog, middle: RawLog, last: RawLog)
    requires fromBlock <= toBlock
    requires |first.topics| == 4 && |middle.topics| == 3 && |last.topics| == 4
    ensures ParseLog(first).Success? && ParseLog(last).Success?
    ensures ScanBlocks(contractAddress, eventTopic, fromBlock, toBlock,
                       Logs([first, middle, last])).events == []
  {
    assert [first, middle, last][1] == middle;
  }
}
