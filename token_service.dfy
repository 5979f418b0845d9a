/**
 * The block-cursor polling step of the token service
 * (api/src/token/token.service.ts): one cycle reads the chain height, fetches
 * the Transfer logs after the cursor, pushes one event per log into the
 * history store and only then advances the cursor.
 *
 * The node is not called: what it answers during one cycle is an input, a
 * `Chain` value. `PollCycle` specifies what a cycle decides, `Run` and
 * `CursorRanges` follow the cursor over many cycles, and the class
 * `TokenService` is proved against them.
 */
module Token {
  import opened Wrappers
  import opened History

  /** Why a chain read threw: the node could not be reached, or it refused the block range. */
  datatype ChainError = Unavailable | InvalidRange

  /** `returnValues` of a decoded Transfer log; `value` already in decimal. */
  datatype TransferArgs = TransferArgs(from: string, to: string, value: string)

  /** A Transfer log as `getPastEvents` returns it. */
  datatype TransferLog = TransferLog(transactionHash: string, returnValues: TransferArgs, blockNumber: nat)

  /**
   * What the node answers during one poll cycle: the result of
   * `getBlockNumber`, and the result of `getPastEvents("Transfer")` for each
   * possible `fromBlock`. Either may fail.
   */
  datatype Chain = Chain(
    blockNumber: Result<nat, ChainError>,
    pastTransferEvents: nat -> Result<seq<TransferLog>, ChainError>)

  /** The event pushed for one log: every field is carried over unchanged. */
  function ToEvent(log: TransferLog): (ev: TransferEvent)
    ensures ev.txHash == log.transactionHash
    ensures ev.from == log.returnValues.from && ev.to == log.returnValues.to
    ensures ev.value == log.returnValues.value
    ensures ev.blockNumber == log.blockNumber
  {
    TransferEvent(log.transactionHash, log.returnValues.from, log.returnValues.to,
                  log.returnValues.value, log.blockNumber)
  }

  /** One event per log, in the order the node returned the logs. */
  function ToEvents(logs: seq<TransferLog>): (evs: seq<TransferEvent>)
    ensures |evs| == |logs|
    ensures forall i :: 0 <= i < |logs| ==> evs[i] == ToEvent(logs[i])
  {
    seq(|logs|, i requires 0 <= i < |logs| => ToEvent(logs[i]))
  }

  /** What one poll cycle does. */
  datatype Cycle =
    | UpToDate                                                        // latest <= lastBlock: nothing to do
    | Ingested(fromBlock: nat, latest: nat, events: seq<TransferEvent>)  // fetched from fromBlock, cursor moves to latest
    | Failed(error: ChainError)                                        // a chain read threw: nothing changes

  /**
   * The decision of one cycle with the cursor at `lastBlock`. It is up to date
   * exactly when the height was read and is not above the cursor; when it
   * ingests, the fetch started one block after the cursor, the height was
   * above the cursor, and the events are the fetched logs in order.
   */
  function PollCycle(lastBlock: nat, chain: Chain): (c: Cycle)
    ensures c.UpToDate? <==> chain.blockNumber.Ok? && chain.blockNumber.value <= lastBlock
    ensures c.Ingested? ==>
      && c.fromBlock == lastBlock + 1
      && chain.blockNumber == Ok(c.latest) && lastBlock < c.latest
      && chain.pastTransferEvents(c.fromBlock).Ok?
      && c.events == ToEvents(chain.pastTransferEvents(c.fromBlock).value)
    ensures c.Failed? ==> chain.blockNumber.Err? || chain.pastTransferEvents(lastBlock + 1).Err?
  {
    match chain.blockNumber
    case Err(e) => Failed(e)
    case Ok(latest) =>
      if latest <= lastBlock then UpToDate
      else
        match chain.pastTransferEvents(lastBlock + 1)
        case Err(e) => Failed(e)
        case Ok(logs) => Ingested(lastBlock + 1, latest, ToEvents(logs))
  }

  /** The cursor after a cycle: the height read, after a successful ingest; unchanged otherwise. */
  function CursorAfter(lastBlock: nat, c: Cycle): nat {
    if c.Ingested? then c.latest else lastBlock
  }

  /** The store after a cycle: the events pushed in order, after a successful ingest; unchanged otherwise. */
  function ItemsAfter(items: seq<TransferEvent>, limit: nat, c: Cycle): seq<TransferEvent>
    requires 1 <= limit
  {
    if c.Ingested? then PushAll(items, c.events, limit) else items
  }

  /**
   * The cursor never moves back; it moves exactly to the height read after a
   * successful ingest, and it stays put when the cycle is up to date or a
   * chain read fails.
   */
  lemma CursorMonotone(lastBlock: nat, chain: Chain)
    ensures CursorAfter(lastBlock, PollCycle(lastBlock, chain)) >= lastBlock
    ensures PollCycle(lastBlock, chain).Ingested? ==>
      CursorAfter(lastBlock, PollCycle(lastBlock, chain)) == chain.blockNumber.value
    ensures !PollCycle(lastBlock, chain).Ingested? ==>
      CursorAfter(lastBlock, PollCycle(lastBlock, chain)) == lastBlock
  {
  }

  /**
   * No fetch when up to date: if the height read is not above the cursor, the
   * cycle does nothing, whatever `getPastEvents` would have answered.
   */
  lemma UpToDateFetchesNothing(lastBlock: nat, latest: nat, fetch: nat -> Result<seq<TransferLog>, ChainError>)
    requires latest <= lastBlock
    ensures PollCycle(lastBlock, Chain(Ok(latest), fetch)) == UpToDate
  {
  }

  /**
   * The fetch starts at `lastBlock + 1`: a cycle depends on the node's logs
   * only through its answer for that `fromBlock`.
   */
  lemma FetchStartsAfterCursor(lastBlock: nat, height: Result<nat, ChainError>,
                               fetch1: nat -> Result<seq<TransferLog>, ChainError>,
                               fetch2: nat -> Result<seq<TransferLog>, ChainError>)
    requires fetch1(lastBlock + 1) == fetch2(lastBlock + 1)
    ensures PollCycle(lastBlock, Chain(height, fetch1)) == PollCycle(lastBlock, Chain(height, fetch2))
  {
  }

  /** After a successful cycle with at least one log, the event of the last log returned is at index 0. */
  lemma LastLogIsNewest(items: seq<TransferEvent>, limit: nat, lastBlock: nat, chain: Chain)
    requires 1 <= limit && |items| <= limit
    requires PollCycle(lastBlock, chain).Ingested?
    requires chain.pastTransferEvents(lastBlock + 1).Ok?
    requires chain.pastTransferEvents(lastBlock + 1).value != []
    ensures var logs := chain.pastTransferEvents(lastBlock + 1).value;
      ItemsAfter(items, limit, PollCycle(lastBlock, chain))[0] == ToEvent(logs[|logs| - 1])
  {
    var c := PollCycle(lastBlock, chain);
    LastPushedIsFirst(items, c.events, limit);
  }

  // ---------------------------------------------------------------------------
  // Consecutive cycles
  // ---------------------------------------------------------------------------

  /**
   * The inclusive block range `[lo, hi]` a successful cycle moved the cursor
   * over. This is the cursor's account, not the fetch's: the fetch asks for
   * logs up to the chain head at fetch time, which may lie beyond `hi`.
   */
  datatype BlockRange = BlockRange(lo: nat, hi: nat)

  /** The cursor after the cycles `ticks`, in order, starting from `lastBlock`. */
  function Run(lastBlock: nat, ticks: seq<Chain>): nat
    decreases |ticks|
  {
    if ticks == [] then lastBlock
    else Run(CursorAfter(lastBlock, PollCycle(lastBlock, ticks[0])), ticks[1..])
  }

  /**
   * The ranges `[fromBlock, latest]` the cursor moved over in the successful
   * cycles among `ticks`, in order (not the ranges the fetches covered).
   */
  function CursorRanges(lastBlock: nat, ticks: seq<Chain>): seq<BlockRange>
    decreases |ticks|
  {
    if ticks == [] then []
    else
      var c := PollCycle(lastBlock, ticks[0]);
      (if c.Ingested? then [BlockRange(c.fromBlock, c.latest)] else [])
        + CursorRanges(CursorAfter(lastBlock, c), ticks[1..])
  }

  /** One cycle: an ingest scans from one past the cursor to above it; anything else leaves the cursor. */
  lemma CycleStep(lastBlock: nat, chain: Chain)
    ensures var c := PollCycle(lastBlock, chain);
      && (c.Ingested? ==> c.fromBlock == lastBlock + 1 && lastBlock < c.latest == CursorAfter(lastBlock, c))
      && (!c.Ingested? ==> CursorAfter(lastBlock, c) == lastBlock)
  {
  }

  /**
   * The cursor never decreases over any run of cycles; it has moved exactly
   * when some cycle ingested; every range the cursor moved over is non-empty; the first
   * starts one block after the starting cursor and the last ends at the final
   * cursor.
   */
  lemma {:induction false} RangesSpanRun(start: nat, ticks: seq<Chain>)
    ensures Run(start, ticks) >= start
    ensures var rs := CursorRanges(start, ticks);
      && (rs == [] <==> Run(start, ticks) == start)
      && (forall k :: 0 <= k < |rs| ==> rs[k].lo <= rs[k].hi)
      && (rs != [] ==> rs[0].lo == start + 1 && rs[|rs| - 1].hi == Run(start, ticks))
    decreases |ticks|
  {
    if ticks != [] {
      var c := PollCycle(start, ticks[0]);
      var next := CursorAfter(start, c);
      CycleStep(start, ticks[0]);
      RangesSpanRun(next, ticks[1..]);
      var rest := CursorRanges(next, ticks[1..]);
      assert Run(start, ticks) == Run(next, ticks[1..]);
      if c.Ingested? {
        assert CursorRanges(start, ticks) == [BlockRange(c.fromBlock, c.latest)] + rest;
      } else {
        assert CursorRanges(start, ticks) == rest;
      }
    }
  }

  /** Each range starts exactly one block after the previous one ends. */
  ghost predicate Contiguous(rs: seq<BlockRange>) {
    forall k :: 0 <= k < |rs| - 1 ==> rs[k + 1].lo == rs[k].hi + 1
  }

  /** A range put in front of contiguous ranges that start right after it keeps them contiguous. */
  lemma ContiguousCons(r: BlockRange, rest: seq<BlockRange>)
    requires Contiguous(rest)
    requires rest != [] ==> rest[0].lo == r.hi + 1
    ensures Contiguous([r] + rest)
  {
    var rs := [r] + rest;
    forall k | 0 <= k < |rs| - 1
      ensures rs[k + 1].lo == rs[k].hi + 1
    {
      if k > 0 {
        assert rs[k] == rest[k - 1] && rs[k + 1] == rest[k];
      }
    }
  }

  /**
   * No gaps: each range the cursor moved over starts exactly one block after the previous
   * one ends, so with `RangesSpanRun` the ranges tile `[start + 1, final]`.
   */
  lemma {:induction false} NoGaps(start: nat, ticks: seq<Chain>)
    ensures Contiguous(CursorRanges(start, ticks))
    decreases |ticks|
  {
    if ticks != [] {
      var c := PollCycle(start, ticks[0]);
      var next := CursorAfter(start, c);
      CycleStep(start, ticks[0]);
      NoGaps(next, ticks[1..]);
      RangesSpanRun(next, ticks[1..]);
      var rest := CursorRanges(next, ticks[1..]);
      if c.Ingested? {
        ContiguousCons(BlockRange(c.fromBlock, c.latest), rest);
        assert CursorRanges(start, ticks) == [BlockRange(c.fromBlock, c.latest)] + rest;
      } else {
        assert CursorRanges(start, ticks) == rest;
      }
    }
  }

  /** Every block after the starting cursor, up to the final cursor, lies in some range the cursor moved over. */
  lemma {:induction false} BlockCovered(start: nat, ticks: seq<Chain>, b: nat) returns (k: nat)
    requires start < b <= Run(start, ticks)
    ensures k < |CursorRanges(start, ticks)|
    ensures CursorRanges(start, ticks)[k].lo <= b <= CursorRanges(start, ticks)[k].hi
    decreases |ticks|
  {
    var c := PollCycle(start, ticks[0]);
    var next := CursorAfter(start, c);
    var rest := CursorRanges(next, ticks[1..]);
    if c.Ingested? {
      assert CursorRanges(start, ticks) == [BlockRange(c.fromBlock, c.latest)] + rest;
      if b <= c.latest {
        k := 0;
      } else {
        var j := BlockCovered(next, ticks[1..], b);
        k := j + 1;
      }
    } else {
      assert CursorRanges(start, ticks) == rest;
      k := BlockCovered(next, ticks[1..], b);
    }
  }

  // ---------------------------------------------------------------------------
  // The service
  // ---------------------------------------------------------------------------

  /** The token service: its block cursor and the history store it feeds. */
  class TokenService {
    var lastBlock: nat
    const history: HistoryStore

    ghost predicate Valid()
      reads this, history
    {
      history.Valid()
    }

    /** A service over `history`, with the cursor at block 0. */
    constructor (history: HistoryStore)
      requires history.Valid()
      ensures Valid() && this.history == history && lastBlock == 0
    {
      this.history := history;
      lastBlock := 0;
    }

    /** Start-up: the cursor is set to the current chain height, so earlier blocks are never backfilled. */
    method Start(height: nat)
      requires Valid()
      modifies this
      ensures Valid() && lastBlock == height
    {
      lastBlock := height;
    }

    /**
     * One poll cycle against the node answers `chain`. The cursor and the
     * store end as `PollCycle` decides: unchanged when up to date or when a
     * chain read fails; otherwise every fetched log has been pushed, in order,
     * and the cursor is the height read.
     */
    method PollTransferEvents(chain: Chain)
      requires Valid()
      modifies this, history
      ensures Valid()
      ensures lastBlock == CursorAfter(old(lastBlock), PollCycle(old(lastBlock), chain))
      ensures history.items == ItemsAfter(old(history.items), history.limit, PollCycle(old(lastBlock), chain))
    {
      var height := chain.blockNumber;
      if height.Err? {
        return;
      }
      var latest := height.value;
      if latest <= lastBlock {
        return;
      }
      var reply := chain.pastTransferEvents(lastBlock + 1);
      if reply.Err? {
        return;
      }
      var logs := reply.value;
      ghost var events := ToEvents(logs);
      for i := 0 to |logs|
        invariant history.Valid()
        invariant lastBlock == old(lastBlock)
        invariant history.items == PushAll(old(history.items), events[..i], history.limit)
      {
        history.Push(ToEvent(logs[i]));
        assert events[..i + 1][..i] == events[..i];
      }
      assert events[..|logs|] == events;
      lastBlock := latest;
    }

    /** The history the API serves: exactly what the store lists for `address`. */
    function HistoryList(address: Option<string>): (r: seq<TransferEvent>)
      reads this, history
      ensures r == history.List(address)
    {
      history.List(address)
    }
  }
}
