/**
 * The polling loop of main: the scan cursor (last_processed_block) and the range
 * each cycle scans. A cycle reads the chain head, scans [cursor + 1, head - conf]
 * when that range is non-empty, hands the events to the destination processor
 * one by one, and then moves the cursor to head - conf, whatever the scan
 * returned. An exception before the cursor update (while reading the head, or
 * one escaping the processor) leaves the cursor alone. The head, the ledger's
 * answer to the log query, whether the processor raises, and the sleeps are
 * outside the model: the first three are inputs of a cycle.
 */
module PollLoop {
  import opened Wrappers
  import opened BigEndian
  import opened Address
  import opened LogDecoder
  import opened Scanner

  /** What get_latest_block gave: a height, a ConnectionError, or any other exception. */
  datatype HeadOutcome = Latest(height: int) | ConnectionFailure | OtherFailure

  /** How the destination processor behaves on a cycle's events: every call
      returns (True or False, which the loop ignores), or the call for the event
      at the given position raises an exception that escapes process_event. */
  datatype SinkOutcome = AllReturn | RaisesOn(index: nat)

  /** The outside world's answers during one cycle. */
  datatype Tick = Tick(head: HeadOutcome, ledger: QueryOutcome, sink: SinkOutcome)

  /** An inclusive range of block heights. */
  datatype Range = Range(lo: int, hi: int)

  /** What a cycle did:
      - Scanned: scanned a range, handed every event to the processor and
        committed the range;
      - Aborted: scanned a range but the processor raised on the event at
        position failedAt, so the range was not committed;
      - NothingToScan: the range was empty;
      - Reconnecting / Critical: reading the head raised a ConnectionError /
        another exception. */
  datatype CycleReport =
    | Scanned(range: Range, scan: ScanResult)
    | Aborted(range: Range, scan: ScanResult, failedAt: nat)
    | NothingToScan(head: int)
    | Reconnecting
    | Critical

  /** What the cursor update depends on: the head a cycle saw, and whether an
      exception escaped the processor after the scan. */
  datatype Observation = Observation(head: HeadOutcome, aborted: bool)

  /** Whether a cycle that starts at this cursor and sees this head scans. */
  predicate Scans(cursor: int, conf: int, head: HeadOutcome)
  {
    head.Latest? && cursor + 1 <= head.height - conf
  }

  /** Whether such a cycle reaches the cursor update. */
  predicate Commits(cursor: int, conf: int, obs: Observation)
  {
    Scans(cursor, conf, obs.head) && !obs.aborted
  }

  /** The cursor after one cycle. It only grows, and only a scanning cycle that
      is not aborted moves it, to exactly the top of the range it scanned. */
  function NextCursor(cursor: int, conf: int, obs: Observation): (c: int)
    ensures c >= cursor
    ensures c != cursor <==> Commits(cursor, conf, obs)
    ensures Commits(cursor, conf, obs) ==> c == obs.head.height - conf
  {
    if Commits(cursor, conf, obs) then obs.head.height - conf else cursor
  }

  /** What one cycle reports for a given cursor and outside answers. */
  function CycleOutcome(cursor: int, conf: int, contractAddress: string, eventTopic: Word, tick: Tick)
    : (r: CycleReport)
    ensures r.Scanned? || r.Aborted? <==> Scans(cursor, conf, tick.head)
    ensures r.Scanned? || r.Aborted? ==>
      r.range == Range(cursor + 1, tick.head.height - conf) &&
      r.scan.query == Some(LogFilter(cursor + 1, tick.head.height - conf, contractAddress, [eventTopic])) &&
      r.scan == ScanBlocks(contractAddress, eventTopic, cursor + 1, tick.head.height - conf, tick.ledger)
    ensures r.Aborted? <==>
      Scans(cursor, conf, tick.head) && tick.sink.RaisesOn? && tick.sink.index < |r.scan.events|
    ensures r.Aborted? ==> r.failedAt == tick.sink.index
    ensures tick.head.Latest? && !Scans(cursor, conf, tick.head) ==> r == NothingToScan(tick.head.height)
    ensures tick.head.ConnectionFailure? ==> r == Reconnecting
    ensures tick.head.OtherFailure? ==> r == Critical
  {
    match tick.head
    case Latest(h) =>
      if cursor + 1 <= h - conf then
        var scan := ScanBlocks(contractAddress, eventTopic, cursor + 1, h - conf, tick.ledger);
        if tick.sink.RaisesOn? && tick.sink.index < |scan.events|
        then Aborted(Range(cursor + 1, h - conf), scan, tick.sink.index)
        else Scanned(Range(cursor + 1, h - conf), scan)
      else NothingToScan(h)
    case ConnectionFailure => Reconnecting
    case OtherFailure => Critical
  }

  /** The cursor after a sequence of cycles with these observations. */
  function CursorAfter(start: int, conf: int, obs: seq<Observation>): int
  {
    if |obs| == 0 then start
    else NextCursor(CursorAfter(start, conf, obs[..|obs| - 1]), conf, obs[|obs| - 1])
  }

  /** The ranges committed, in order, by a sequence of cycles with these
      observations. An aborted cycle scans a range but does not commit it. */
  function CommittedRanges(start: int, conf: int, obs: seq<Observation>): seq<Range>
  {
    if |obs| == 0 then []
    else
      var before := obs[..|obs| - 1];
      var c, o := CursorAfter(start, conf, before), obs[|obs| - 1];
      CommittedRanges(start, conf, before) +
        (if Commits(c, conf, o) then [Range(c + 1, o.head.height - conf)] else [])
  }

  /** Ranges that are non-empty and follow each other without gap or overlap,
      from just after start to final. */
  ghost predicate Contiguous(start: int, rs: seq<Range>, final: int)
  {
    && (forall k :: 0 <= k < |rs| ==> rs[k].lo <= rs[k].hi)
    && (forall k :: 0 <= k < |rs| - 1 ==> rs[k + 1].lo == rs[k].hi + 1)
    && (|rs| == 0 ==> final == start)
    && (|rs| > 0 ==> rs[0].lo == start + 1 && rs[|rs| - 1].hi == final)
  }

  lemma CursorAfterSnoc(start: int, conf: int, obs: seq<Observation>, o: Observation)
    ensures CursorAfter(start, conf, obs + [o]) == NextCursor(CursorAfter(start, conf, obs), conf, o)
    ensures CommittedRanges(start, conf, obs + [o]) == CommittedRanges(start, conf, obs) +
      (if Commits(CursorAfter(start, conf, obs), conf, o)
       then [Range(CursorAfter(start, conf, obs) + 1, o.head.height - conf)] else [])
  {
    assert (obs + [o])[..|obs|] == obs;
  }

  /** Consecutive committed ranges are contiguous: each starts right after the
      previous one ends, the first right after the starting cursor, and the last
      ends at the current cursor. */
  lemma {:induction false} RangesContiguous(start: int, conf: int, obs: seq<Observation>)
    ensures Contiguous(start, CommittedRanges(start, conf, obs), CursorAfter(start, conf, obs))
  {
    if |obs| > 0 {
      var before, o := obs[..|obs| - 1], obs[|obs| - 1];
      RangesContiguous(start, conf, before);
      assert obs == before + [o];
      CursorAfterSnoc(start, conf, before, o);
      var rs, c := CommittedRanges(start, conf, before), CursorAfter(start, conf, before);
      if Commits(c, conf, o) {
        ContiguousSnoc(start, rs, c, Range(c + 1, o.head.height - conf));
      } else {
        assert rs + [] == rs;
      }
    }
  }

  /** A non-empty range right after the last one keeps the ranges contiguous. */
  lemma ContiguousSnoc(start: int, rs: seq<Range>, final: int, r: Range)
    requires Contiguous(start, rs, final) && r.lo == final + 1 && r.lo <= r.hi
    ensures Contiguous(start, rs + [r], r.hi)
  {
  }

  /** How many of the ranges contain block b. */
  function Hits(rs: seq<Range>, b: int): (n: nat)
    ensures n <= |rs|
  {
    if |rs| == 0 then 0
    else Hits(rs[..|rs| - 1], b) + (if rs[|rs| - 1].lo <= b <= rs[|rs| - 1].hi then 1 else 0)
  }

  lemma {:induction false} ContiguousCoversOnce(start: int, rs: seq<Range>, final: int, b: int)
    requires Contiguous(start, rs, final)
    ensures start <= final
    ensures Hits(rs, b) == if start < b <= final then 1 else 0
  {
    if |rs| > 0 {
      var init, last := rs[..|rs| - 1], rs[|rs| - 1];
      var mid := if |init| == 0 then start else init[|init| - 1].hi;
      assert Contiguous(start, init, mid);
      ContiguousCoversOnce(start, init, mid, b);
      assert last.lo == mid + 1 && last.hi == final;
    }
  }

  /** No gap and no overlap in what is committed: every block after the starting
      cursor and up to the current cursor lies in exactly one committed range,
      and no other block lies in any. (An aborted range is scanned again later;
      see AbortedCycleRescans.) */
  lemma EveryBlockCommittedOnce(start: int, conf: int, obs: seq<Observation>, b: int)
    ensures Hits(CommittedRanges(start, conf, obs), b) ==
      if start < b <= CursorAfter(start, conf, obs) then 1 else 0
  {
    RangesContiguous(start, conf, obs);
    ContiguousCoversOnce(start, CommittedRanges(start, conf, obs), CursorAfter(start, conf, obs), b);
  }

  /** The cursor never goes back over any stretch of cycles. */
  lemma {:induction false} CursorMonotone(start: int, conf: int, obs: seq<Observation>, i: nat, j: nat)
    requires i <= j <= |obs|
    ensures CursorAfter(start, conf, obs[..i]) <= CursorAfter(start, conf, obs[..j])
  {
    if i < j {
      CursorMonotone(start, conf, obs, i, j - 1);
      assert obs[..j][..j - 1] == obs[..j - 1];
    }
  }

  /** The cursor is the starting cursor or head - conf for a head some cycle saw. */
  lemma {:induction false} CursorFromObservedHead(start: int, conf: int, obs: seq<Observation>)
    ensures var c := CursorAfter(start, conf, obs);
      c == start ||
      exists k :: 0 <= k < |obs| && obs[k].head.Latest? && c == obs[k].head.height - conf
  {
    if |obs| > 0 {
      var before := obs[..|obs| - 1];
      CursorFromObservedHead(start, conf, before);
      var c := CursorAfter(start, conf, before);
      if c != start {
        var k :| 0 <= k < |before| && before[k].head.Latest? && c == before[k].head.height - conf;
        assert obs[k] == before[k];
      }
    }
  }

  /** The chain heads a run observes never go below the startup head h0, nor
      below an earlier observed head. */
  ghost predicate HeadsNonDecreasing(h0: int, obs: seq<Observation>)
  {
    && (forall k :: 0 <= k < |obs| && obs[k].head.Latest? ==> h0 <= obs[k].head.height)
    && (forall i, j :: 0 <= i < j < |obs| && obs[i].head.Latest? && obs[j].head.Latest? ==>
          obs[i].head.height <= obs[j].head.height)
  }

  /** Started at h0 - conf - 1, the cursor never passes head - conf for the head
      seen in the latest cycle, as long as the observed heads never go down. */
  lemma CursorWithinSafeHead(h0: int, conf: int, obs: seq<Observation>)
    requires HeadsNonDecreasing(h0, obs)
    requires |obs| > 0 && obs[|obs| - 1].head.Latest?
    ensures CursorAfter(h0 - conf - 1, conf, obs) <= obs[|obs| - 1].head.height - conf
  {
    var n := |obs|;
    var before := obs[..n - 1];
    var c := CursorAfter(h0 - conf - 1, conf, before);
    CursorFromObservedHead(h0 - conf - 1, conf, before);
    if c != h0 - conf - 1 {
      var k :| 0 <= k < |before| && before[k].head.Latest? && c == before[k].head.height - conf;
      assert obs[k] == before[k];
    }
  }

  /** Without that hypothesis the bound fails: after a head of 1005 a node that
      reports 1000 leaves the cursor at 999, past 1000 - 6. */
  lemma HeadRegressionLeavesCursorAhead()
    ensures CursorAfter(993, 6, [Observation(Latest(1005), false), Observation(Latest(1000), false)])
         == 999 > 1000 - 6
  {
    var obs := [Observation(Latest(1005), false), Observation(Latest(1000), false)];
    assert obs[..1] == [Observation(Latest(1005), false)];
    assert obs[..1][..0] == [];
  }

  /** A cycle whose query fails (BlockNotFound or any other error) yields no
      events, so nothing can abort it: it moves the cursor over the whole range,
      and no later cycle commits any block of that range again. */
  lemma FailedScanSkipsRange(
    cursor: int, conf: int, contractAddress: string, eventTopic: Word, tick: Tick,
    later: seq<Observation>, b: int)
    requires Scans(cursor, conf, tick.head) && !tick.ledger.Logs?
    requires cursor < b <= tick.head.height - conf
    ensures var r := CycleOutcome(cursor, conf, contractAddress, eventTopic, tick);
      r.Scanned? && r.scan.events == [] &&
      NextCursor(cursor, conf, Observation(tick.head, r.Aborted?)) == tick.head.height - conf &&
      Hits(CommittedRanges(tick.head.height - conf, conf, later), b) == 0
  {
    EveryBlockCommittedOnce(tick.head.height - conf, conf, later, b);
  }

  /** When an exception escapes the processor, the cursor stays where it was, so
      the next cycle scans from the same block again: with the same head and
      ledger answer it repeats the same query and hands the same events to the
      processor again; with a higher head its range covers the aborted one. */
  lemma AbortedCycleRescans(
    cursor: int, conf: int, contractAddress: string, eventTopic: Word, tick: Tick, next: Tick)
    requires CycleOutcome(cursor, conf, contractAddress, eventTopic, tick).Aborted?
    ensures NextCursor(cursor, conf, Observation(tick.head, true)) == cursor
    ensures var r := CycleOutcome(cursor, conf, contractAddress, eventTopic, tick);
      var r' := CycleOutcome(cursor, conf, contractAddress, eventTopic, next);
      (next.head.Latest? && next.head.height >= tick.head.height ==>
         (r'.Scanned? || r'.Aborted?) && r'.range.lo == r.range.lo && r'.range.hi >= r.range.hi) &&
      (next.head == tick.head && next.ledger == tick.ledger ==> r'.scan == r.scan)
  {
  }

  /** The commit the program's own text describes: the "Will retry" warning on
      BlockNotFound and the remark over the cursor update both say the cursor
      moves only after a successful scan. Here a scan succeeds when the query
      returned logs and every one of them decoded, and the cycle commits only
      then, and only when nothing escaped the processor. */
  predicate IntendedCommits(cursor: int, conf: int, tick: Tick, aborted: bool)
  {
    Scans(cursor, conf, tick.head) && !aborted &&
    tick.ledger.Logs? && ParseAll(tick.ledger.logs).Some?
  }

  /** The cursor after one cycle under the intended commit. */
  function IntendedNextCursor(cursor: int, conf: int, tick: Tick, aborted: bool): (c: int)
    ensures c >= cursor
    ensures c != cursor <==> IntendedCommits(cursor, conf, tick, aborted)
    ensures c != cursor ==> c == tick.head.height - conf
  {
    if IntendedCommits(cursor, conf, tick, aborted) then tick.head.height - conf else cursor
  }

  /** Under the intended commit, a committed range is one whose every log was
      decoded and handed to the processor. */
  lemma IntendedCommitDeliversAll(
    cursor: int, conf: int, contractAddress: string, eventTopic: Word, tick: Tick)
    requires IntendedCommits(cursor, conf, tick,
                             CycleOutcome(cursor, conf, contractAddress, eventTopic, tick).Aborted?)
    ensures var r := CycleOutcome(cursor, conf, contractAddress, eventTopic, tick);
      r.Scanned? && ParseAll(tick.ledger.logs) == Some(r.scan.events) &&
      IntendedNextCursor(cursor, conf, tick, false) == r.range.hi
  {
    var logs := tick.ledger.logs;
    if |logs| == 0 {
      assert ParseAll(logs) == Some([]);
    }
  }

  /** Under the intended commit, a cycle whose query fails or whose batch does not
      decode keeps the cursor, so the next cycle scans again from the same first
      block, over at least the same range when the head has not gone down; the
      code as written moves past that range instead (FailedScanSkipsRange). */
  lemma IntendedFailedScanRescans(
    cursor: int, conf: int, contractAddress: string, eventTopic: Word, tick: Tick, next: Tick)
    requires Scans(cursor, conf, tick.head)
    requires !tick.ledger.Logs? || ParseAll(tick.ledger.logs).None?
    ensures var r := CycleOutcome(cursor, conf, contractAddress, eventTopic, tick);
      IntendedNextCursor(cursor, conf, tick, r.Aborted?) == cursor &&
      NextCursor(cursor, conf, Observation(tick.head, r.Aborted?)) != cursor
    ensures next.head.Latest? && next.head.height >= tick.head.height ==>
      var r' := CycleOutcome(cursor, conf, contractAddress, eventTopic, next);
      (r'.Scanned? || r'.Aborted?) && r'.range.lo == cursor + 1 && r'.range.hi >= tick.head.height - conf
  {
    var r := CycleOutcome(cursor, conf, contractAddress, eventTopic, tick);
    assert r.scan.events == [];
  }

  /** The first cycle after start-up with 6 confirmations and a head of 1000:
      the cursor starts at 993, the cycle scans block 994 alone, decodes the one
      TokensLocked log found there and moves the cursor to 994. */
  lemma FirstCycleScenario(
    contractAddress: string, eventTopic: Word, token: Address, sender: Address, txHash: seq<uint8>)
    ensures
      var log := EncodeLog(eventTopic, token, sender, 42, 1000000, 1, txHash, 994);
      var tick := Tick(Latest(1000), Logs([log]), AllReturn);
      var start := 1000 - 6 - 1;
      start == 993 &&
      CycleOutcome(start, 6, contractAddress, eventTopic, tick) ==
        Scanned(Range(994, 994),
                ScanResult(Some(LogFilter(994, 994, contractAddress, [eventTopic])),
                           [DecodedEvent(ChecksumAddress(token), ChecksumAddress(sender),
                                         42, 1000000, 1, txHash, 994)])) &&
      NextCursor(start, 6, Observation(tick.head, false)) == 994
  {
    var log := EncodeLog(eventTopic, token, sender, 42, 1000000, 1, txHash, 994);
    var event := DecodedEvent(ChecksumAddress(token), ChecksumAddress(sender), 42, 1000000, 1, txHash, 994);
    ScenarioLogDecodes(eventTopic, token, sender, txHash);
    OneLogCycle(993, 6, contractAddress, eventTopic, 1000, log, event);
  }

  /** A scanning cycle whose query returns one log that decodes, and whose
      processor returns, reports exactly that log's event and commits. */
  lemma OneLogCycle(
    cursor: int, conf: int, contractAddress: string, eventTopic: Word, head: int,
    log: RawLog, event: DecodedEvent)
    requires cursor + 1 <= head - conf && ParseLog(log) == Success(event)
    ensures CycleOutcome(cursor, conf, contractAddress, eventTopic, Tick(Latest(head), Logs([log]), AllReturn)) ==
      Scanned(Range(cursor + 1, head - conf),
              ScanResult(Some(LogFilter(cursor + 1, head - conf, contractAddress, [eventTopic])), [event]))
  {
    ParseAllSingle(log);
  }

  /** The log of the scenario above decodes to the values it was emitted with. */
  lemma ScenarioLogDecodes(eventTopic: Word, token: Address, sender: Address, txHash: seq<uint8>)
    ensures ParseLog(EncodeLog(eventTopic, token, sender, 42, 1000000, 1, txHash, 994)) ==
      Success(DecodedEvent(ChecksumAddress(token), ChecksumAddress(sender), 42, 1000000, 1, txHash, 994))
  {
    assert 1000000 < Pow256(3) <= Pow256(32) by { Pow256Grows(3, 32); }
    DecodeEncodedLog(eventTopic, token, sender, 42, 1000000, 1, txHash, 994);
  }

  /** The inner loop of a scanning cycle: hands the events to the processor
      one after another and stops at the first call that raises, giving its
      position, or None when every call returns. */
  method HandOver(events: seq<DecodedEvent>, sink: SinkOutcome) returns (raisedAt: Option<nat>)
    ensures raisedAt.Some? <==> sink.RaisesOn? && sink.index < |events|
    ensures raisedAt.Some? ==> raisedAt.value == sink.index
  {
    var k := 0;
    while k < |events|
      invariant 0 <= k <= |events|
      invariant !(sink.RaisesOn? && sink.index < k)
    {
      if sink == RaisesOn(k) {
        return Some(k);
      }
      k := k + 1;
    }
    return None;
  }

  /** The bridge listener's loop state: the scan cursor, with the scanner's
      settings. The ghost fields record the starting cursor and what every cycle
      so far observed, so that the cursor is a function of the history. */
  class Listener {
    const confirmations: int
    const contractAddress: string
    const eventTopic: Word
    var cursor: int
    ghost var start: int
    ghost var observed: seq<Observation>

    ghost predicate Valid()
      reads this
    {
      cursor == CursorAfter(start, confirmations, observed)
    }

    /** Every range committed so far, oldest first. */
    ghost function History(): seq<Range>
      reads this
    {
      CommittedRanges(start, confirmations, observed)
    }

    /** Start-up: the cursor begins just below the newest confirmed block. */
    constructor(head: int, confirmations: int, contractAddress: string, eventTopic: Word)
      ensures Valid() && History() == []
      ensures cursor == head - confirmations - 1 && start == cursor && observed == []
      ensures this.confirmations == confirmations
      ensures this.contractAddress == contractAddress && this.eventTopic == eventTopic
    {
      this.confirmations := confirmations;
      this.contractAddress := contractAddress;
      this.eventTopic := eventTopic;
      cursor := head - confirmations - 1;
      start := head - confirmations - 1;
      observed := [];
    }

    /** The work of one pass of the loop body, from the current cursor: what it
        reports and where it leaves the cursor. Changes nothing. */
    method Step(tick: Tick) returns (report: CycleReport, next: int)
      ensures report == CycleOutcome(cursor, confirmations, contractAddress, eventTopic, tick)
      ensures next == NextCursor(cursor, confirmations, Observation(tick.head, report.Aborted?))
    {
      next := cursor;
      match tick.head {
        case Latest(latest) =>
          var toBlock := latest - confirmations;
          var fromBlock := cursor + 1;
          if fromBlock <= toBlock {
            var scan := ScanBlocks(contractAddress, eventTopic, fromBlock, toBlock, tick.ledger);
            var raisedAt := HandOver(scan.events, tick.sink);
            if raisedAt.Some? {
              report := Aborted(Range(fromBlock, toBlock), scan, raisedAt.value);
            } else {
              report := Scanned(Range(fromBlock, toBlock), scan);
              next := toBlock;
            }
          } else {
            report := NothingToScan(latest);
          }
        case ConnectionFailure =>
          report := Reconnecting;
        case OtherFailure =>
          report := Critical;
      }
    }

    /** One pass of the loop body: the step's report, and its cursor committed. */
    method Cycle(tick: Tick) returns (report: CycleReport)
      requires Valid()
      modifies this`cursor, this`observed
      ensures Valid() && start == old(start)
      ensures observed == old(observed) + [Observation(tick.head, report.Aborted?)]
      ensures cursor == NextCursor(old(cursor), confirmations, Observation(tick.head, report.Aborted?))
      ensures report == CycleOutcome(old(cursor), confirmations, contractAddress, eventTopic, tick)
      ensures report.Scanned? ==> report.range == Range(old(cursor) + 1, cursor)
      ensures !report.Scanned? ==> cursor == old(cursor)
      ensures History() == old(History()) + (if report.Scanned? then [report.range] else [])
    {
      var next;
      report, next := Step(tick);
      ghost var o := Observation(tick.head, report.Aborted?);
      CursorAfterSnoc(start, confirmations, observed, o);
      cursor := next;
      observed := observed + [o];
    }

    /** The loop run over a finite sequence of cycles: report k is what cycle k
        does from the cursor that the cycles before it left. */
    method Run(ticks: seq<Tick>) returns (reports: seq<CycleReport>)
      requires Valid()
      modifies this`cursor, this`observed
      ensures Valid() && start == old(start) && cursor >= old(cursor)
      ensures |observed| == |old(observed)| + |ticks| && observed[..|old(observed)|] == old(observed)
      ensures |reports| == |ticks|
      ensures forall k :: 0 <= k < |ticks| ==>
        reports[k] == CycleOutcome(CursorAfter(start, confirmations, observed[..|old(observed)| + k]),
                                   confirmations, contractAddress, eventTopic, ticks[k]) &&
        observed[|old(observed)| + k] == Observation(ticks[k].head, reports[k].Aborted?)
    {
      ghost var n0 := |observed|;
      reports := [];
      var i := 0;
      while i < |ticks|
        invariant 0 <= i <= |ticks|
        invariant Valid() && start == old(start) && cursor >= old(cursor)
        invariant |observed| == n0 + i && observed[..n0] == old(observed)
        invariant |reports| == i
        invariant forall k :: 0 <= k < i ==>
          reports[k] == CycleOutcome(CursorAfter(start, confirmations, observed[..n0 + k]),
                                     confirmations, contractAddress, eventTopic, ticks[k]) &&
          observed[n0 + k] == Observation(ticks[k].head, reports[k].Aborted?)
      {
        ghost var before := observed;
        assert cursor == CursorAfter(start, confirmations, observed[..n0 + i]) by {
          assert observed[..n0 + i] == observed;
        }
        var report := Cycle(ticks[i]);
        assert forall k :: 0 <= k <= n0 + i ==> observed[..k] == before[..k];
        reports := reports + [report];
        i := i + 1;
      }
    }
  }
}
