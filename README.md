# Token-transfer ingestion: history store and block-cursor polling

This project models the ingestion core of the workshop token API.

- `history_store.dfy` (module `History`) covers `api/src/token/history.store.ts`. It models
  the `TransferEvent` record and the `HistoryStore` class. The store holds a newest-first
  `items` sequence and a capacity `limit`, 200 by default. `push` puts an event in front
  and trims the store to `limit`. `list(address?)` returns everything, or only the events
  whose `from` or `to` equals the address, ignoring case.
- `token_service.dfy` (module `Token`) covers the polling part of
  `api/src/token/token.service.ts`. That is the `lastBlock` cursor, one
  `pollTransferEvents` cycle and the `historyList` pass-through. In one cycle the service:
  1. reads the chain height;
  2. stops if the height is not above the cursor;
  3. fetches the Transfer logs from `lastBlock + 1`;
  4. pushes one `TransferEvent` per log, in the order the node returned them;
  5. only then sets `lastBlock` to the height it read.
- `wrappers.dfy` holds `Option` (for the optional address) and `Result` (for chain reads that
  can throw).

In the repository the bodies of `push`, `list` and `pollTransferEvents` are still
placeholders. Each comes with comments that spell out the intended code line by line. The
model follows those comments, and the line numbers below point at them.

The node is never called. What it answers during one cycle is the input `Chain`. It holds
the `getBlockNumber` reply and the `getPastEvents("Transfer")` reply for each possible
`fromBlock`, and either reply may be an error. A read that throws in the source is an
`Err` reply here. That cycle then ends before anything changes, and `PollCycle`
returns `Failed`. What a throw does to the running process is noted under "## Left out".

The pure functions `Pushed`, `PushAll`, `Involving`, `PollCycle`, `Run` and `CursorRanges`
are the specification. The classes `HistoryStore` and `TokenService` keep the mutable state
(`items`, `lastBlock`), and their methods are proved to match those functions.

## Model

| member | source | states |
|---|---|---|
| `History.Lower` | api/src/token/history.store.ts:23 | Lower-casing keeps the length, turns each upper-case ASCII letter into its lower-case partner (code point + 32), leaves no upper-case ASCII letter and keeps every other character |
| `History.Pushed` | api/src/token/history.store.ts:16-18 | After a push the new event is at index 0. The length is the old length plus one, capped at `limit`. Behind the new event come the old entries in their old order, with only the oldest tail dropped |
| `History.PushAllWindow` | api/src/token/history.store.ts:16-18 | After any run of pushes the store is the pushed events, newest first, followed by the old entries, cut to the first `limit`. Eviction follows insertion order, not block number |
| `History.LastPushedIsFirst` | api/src/token/history.store.ts:17 | After a non-empty batch of pushes, the last event pushed is at index 0 |
| `History.PushAllLength` | api/src/token/history.store.ts:17-18 | After any run of pushes the length is (old length + pushes) capped at `limit`, so it never exceeds `limit` |
| `History.PushKeepsDuplicates` | api/src/token/history.store.ts:16-18 | `push` does not deduplicate. Pushing an event whose `txHash` is already stored adds another entry with that hash whenever nothing is evicted, and the hash is always present afterwards |
| `History.Involving` | api/src/token/history.store.ts:23 | The filter returns only stored entries whose `from` or `to` equals the address ignoring case. It returns every such entry. It is empty exactly when no entry matches |
| `History.InvolvingPositions` | api/src/token/history.store.ts:23 | The filtered list is the subsequence of `items` at strictly increasing positions. A position is selected exactly when its entry matches, so store order is kept |
| `History.InvolvingIgnoresQueryCase` | api/src/token/history.store.ts:23 | Two spellings of one address that differ only in case select the same entries |
| `History.HistoryStore.constructor` | api/src/token/history.store.ts:13-14 | A new store is empty and has the given capacity |
| `History.HistoryStore.Push` | api/src/token/history.store.ts:16-19 | The new `items` equals `Pushed(old items, ev, limit)`: `ev` at index 0, length capped at `limit`, the old entries behind it in order. `limit` does not change |
| `History.HistoryStore.List` | api/src/token/history.store.ts:21-25 | With no address, exactly `items` in store order. With an address, exactly `Involving(items, address)`: the matching entries in store order, repeated entries kept, so only stored entries that match and every one that does. A `function` that reads the store and changes neither `items` nor `limit` |
| `History.EvictionScenario` | api/src/token/history.store.ts:16-18 | With capacity 3, pushing E1, E2, E3, E4 and listing gives `[E4, E3, E2]`, whatever their block numbers |
| `History.CaseInsensitiveScenario` | api/src/token/history.store.ts:21-25 | Entries `0xAA -> 0xBB` and `0xCC -> 0xAA` are both listed for the query `0xaa`, newest first |
| `Token.ToEvent` | api/src/token/token.service.ts:46-48 | The event built from a log copies the log's transaction hash, `from`, `to`, `value` (a string) and block number unchanged |
| `Token.ToEvents` | api/src/token/token.service.ts:45-49 | One event per fetched log, in the order the node returned them |
| `Token.PollCycle` | api/src/token/token.service.ts:33-52 | A cycle is up to date exactly when the height was read and is not above the cursor. When it ingests, the fetch starts at `lastBlock + 1`, the height is above the cursor and the events are the fetched logs in order. It fails only when a chain read failed |
| `Token.CursorMonotone` | api/src/token/token.service.ts:35-51 | The cursor never decreases. It becomes the height read after a successful cycle. It stays put when up to date or when a chain read fails |
| `Token.UpToDateFetchesNothing` | api/src/token/token.service.ts:35-36 | When the height is not above the cursor the cycle does nothing, whatever the fetch would have answered |
| `Token.FetchStartsAfterCursor` | api/src/token/token.service.ts:39-42 | A cycle depends on the node's logs only through its answer for `fromBlock = lastBlock + 1` |
| `Token.LastLogIsNewest` | api/src/token/token.service.ts:44-49 | After a successful cycle with logs, the event built from the last log returned is at index 0 of the store |
| `Token.RangesSpanRun` | api/src/token/token.service.ts:39-51 | Over any run of cycles the cursor never decreases. It has moved exactly when some cycle ingested. Every range the cursor moved over is non-empty. The first range starts one block after the starting cursor and the last ends at the final cursor |
| `Token.NoGaps` | api/src/token/token.service.ts:39-51 | Across consecutive cycles each range the cursor moved over, `[lastBlock + 1, latest]`, starts exactly one block after the previous one ends. These are the cursor's ranges, not the fetches' |
| `Token.BlockCovered` | api/src/token/token.service.ts:39-51 | Every block after the starting cursor, up to the final cursor, lies in some range the cursor moved over |
| `Token.TokenService.constructor` | api/src/token/token.service.ts:11-17 | The cursor starts at 0 over the given store |
| `Token.TokenService.Start` | api/src/token/token.service.ts:26-27 | Start-up sets the cursor to the current chain height |
| `Token.TokenService.PollTransferEvents` | api/src/token/token.service.ts:33-52 | The cursor becomes `CursorAfter(old cursor, PollCycle(...))`. The store becomes the old store with every fetched event pushed in order, or stays unchanged when up to date or on failure. The cursor is set only after the loop |
| `Token.TokenService.HistoryList` | api/src/token/token.service.ts:76-78 | Returns exactly what the store's `list` returns for the same address |

## Left out

- Web3 and RPC calls are not modelled. That covers the `Contract` binding, `getBlockNumber`, `getPastEvents`, `balanceOf` and `transfer` (key derivation, gas estimation, sending): api/src/token/token.service.ts:23-24 and 54-74. These are foreign library calls, so only their replies are modelled, as the `Chain` input.
- `Token.PollCycle`: the fetch upper bound is not modelled. The code asks for `toBlock: "latest"`, not the height it read, so the node may return logs above that height. The model treats the logs as an arbitrary reply. It does not claim they stop at the height read, and it does not model that such logs can be pushed again by the next cycle.
- `Token.PollCycle` and `Token.Run`: a failed chain read is modelled as a cycle that changes nothing, after which later cycles retry from the same cursor. `pollTransferEvents` has no `try`/`catch`, the `setInterval` callback drops the returned promise, and the logger is never used. So a throwing `getBlockNumber` or `getPastEvents` leaves a rejected promise that nothing handles, and on Node 15 and later that ends the process by default. The Node version is not given in these sources. Continuing after a `Failed` cycle, as `Run`, `RangesSpanRun` and `BlockCovered` allow, is the intended retry behaviour, not something the code guarantees.
- The 2-second `setInterval` timer and async scheduling are not modelled (timing and concurrency). The code has no single-flight guard, so overlapping cycles are not modelled. Cycles are taken one after another (`Run`).
- Reading `HISTORY_LIMIT` from the environment is not modelled. `Number(...)` there could give NaN. The capacity is a constructor argument of at least 1, with `DefaultLimit = 200`.
- The `TOKEN_ADDRESS` fail-fast check in `onModuleInit` is not modelled (configuration).
- `Start` takes the height as an argument, so a failing `getBlockNumber` at start-up is not modelled.
- `Number(ev.blockNumber)` and `value.toString()` are not modelled. Log fields arrive already converted: the block number as a `nat`, the value as a decimal string. Precision loss in `Number` is not modelled.
- `History.Lower` folds only ASCII `A`-`Z`. JavaScript's `toLowerCase` also maps non-ASCII letters. Addresses are hexadecimal, so only ASCII matters.
- `History.HistoryStore.List`: the address is an `Option`. "No address provided" is `None`. An empty string counts as a given address.
- `History.HistoryStore.List` returns a value, not the live array. Aliasing between the returned array and the store is not modelled.
- The push-subscription ingester is not part of this model: no code for it exists in these sources.
- The HTTP controller, module wiring and the deployment script are not part of this model.
