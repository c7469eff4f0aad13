# TokensLocked bridge listener — Dafny model

This project models the core of the forge-cli cross-chain bridge listener
(`script.py`). The listener polls a source chain and looks for `TokensLocked` logs
of the bridge contract. It only looks at blocks with enough confirmations, and it
decodes each log into an event record for the destination-side processor.

The model covers four parts of the script:

- **Log decoding** (`BridgeEventScanner._parse_log`, module `LogDecoder`).
  Indexed arguments are read from the topics: `token` and `sender` are the low
  20 bytes of topics 1 and 2, and `nonce` is the whole of topic 3. The
  non-indexed `amount` and `destinationChainId` are big-endian words in the data
  buffer. The transaction hash and block number are copied through unchanged.
  Big-endian conversion is in `BigEndian`, and address text is in `Address`.
- **Range scans** (`BridgeEventScanner.scan_blocks`, module `Scanner`). An empty
  range returns nothing and issues no query. Otherwise one `get_logs` query is
  issued and the returned logs are decoded in ledger order. Any exception turns
  the whole batch into an empty list. That includes the `IndexError` from a log
  with fewer than four topics: the list comprehension at `script.py:150` is
  inside the `try` at `script.py:140`, so the well-formed logs of the same batch
  are lost with the bad one (`Scanner.MalformedMiddleLogDropsBatch`).
- **The polling loop's cursor** (`main`, module `PollLoop`). The class `Listener`
  holds `last_processed_block` as `cursor`. Its `Cycle` method is one pass of the
  `while True` body, and `Run` runs a finite number of passes. Ghost fields record
  the start cursor and, for every cycle, the head it saw and whether an exception
  escaped `process_event`. The pure functions `NextCursor`, `CursorAfter` and
  `CommittedRanges` describe the cursor and the committed ranges (those the loop
  moved the cursor over) as functions of that history. The lemmas prove these
  properties:
  - the cursor never goes down;
  - the committed ranges are contiguous, so every block is committed exactly
    once;
  - a cycle aborted by an exception from `process_event` commits nothing, and the
    next cycle scans its range again, so the events of that range can be handed
    to the processor more than once;
  - the cursor never passes `head - confirmations` while the reported heads do
    not go down.
- **Configuration** (`Config.validate` and `get_config_value_6708`, module
  `Configuration`).

External inputs:

- The chain head returned by `get_latest_block`, the ledger's answer to a
  `get_logs` query and the behaviour of `process_event` are inputs to a cycle
  (`Tick`). A head is a height, a `ConnectionError`, or any other exception. A
  query answer is a list of logs, `BlockNotFound`, or any other exception. The
  processor either returns on every event, or raises on the event at a given
  position.
- The environment values and the lines of `config.ini` are parameters.

## Behaviour the model brings out

The model follows the code:

- **A failed query still advances the cursor.** On `BlockNotFound`,
  `scan_blocks` logs "Will retry" (`script.py:153`) and returns `[]`; any other
  error also gives `[]`. The comment at `script.py:312` says the cursor is
  updated "only if scanning was successful", but the assignment at
  `script.py:313` runs whatever the scan returned. No later cycle returns to
  that range, so nothing is retried (`PollLoop.FailedScanSkipsRange`). The
  commit those lines describe is `PollLoop.IntendedNextCursor`: a cycle whose
  query fails or whose batch does not decode keeps the cursor, and the next
  cycle scans again from the same first block
  (`PollLoop.IntendedFailedScanRescans`). The class `Listener` keeps the commit
  as written, since it models the program. See "## Findings".
- **The cursor can be ahead of `head - confirmations`.** The cursor only
  satisfies `cursor <= head - confirmations` for the current head when the
  reported heads never go down (`PollLoop.CursorWithinSafeHead`). If a node
  reports a lower head than before, the cursor stays ahead of it. The code never
  moves the cursor back (`PollLoop.HeadRegressionLeavesCursorAhead`).

## Model

| member | source | states |
|---|---|---|
| `BigEndian.ToNat` | script.py:178-183 | the big-endian value of an n-byte string is below 256^n |
| `BigEndian.FromNat` | script.py:181-183 | the fixed-width big-endian encoding of a number that fits has exactly the requested width |
| `BigEndian.ToNatFromNat` | script.py:181-183 | decoding the 32-byte encoding of a value recovers that value |
| `BigEndian.FromNatToNat` | script.py:178-183 | re-encoding the value of a byte string at its own width gives back that byte string |
| `BigEndian.ToNatCons` | script.py:178-183 | a leading byte b in front of s adds b * 256^n to the value of s, where n is the length of s |
| `BigEndian.Slice` | script.py:182-183 | Python's clamped slice [lo:hi]: its length is min(hi, length) - lo when lo is inside the buffer and 0 otherwise, and byte k of the slice is byte lo + k of the buffer |
| `BigEndian.ToNatInjective` | script.py:178-183 | two byte strings of the same length with the same value are equal |
| `Address.ParseAddress` | script.py:47 | text that to_checksum_address accepts has exactly 40 hex digits after an optional 0x prefix; other text is rejected |
| `Address.ParseAddressAccepts` | script.py:47 | text is accepted exactly when, after an optional 0x, it is 40 hex digits of either case; then byte i of the address is 16 times the value of digit 2i plus the value of digit 2i + 1 |
| `Address.ParseAddressIgnoresCase` | script.py:47 | two 0x-prefixed texts that differ only in the case of their hex digits parse to the same result |
| `Address.ChecksumAddress` | script.py:176-177 | the canonical text of an address is "0x" followed by 40 digits |
| `Address.ParseChecksumAddress` | script.py:47 | the canonical text of an address parses back to that address |
| `Address.ChecksumAddressInjective` | script.py:176-177 | different addresses have different canonical texts, so address normalisation loses nothing |
| `LogDecoder.AddressOfWord` | script.py:176-177 | the address in a topic slot is its last 20 bytes: the slot is 12 bytes followed by the address |
| `LogDecoder.ParseLog` | script.py:160-190 | decoding succeeds exactly when the log has at least four topics; otherwise the error names the first missing topic index (1, 2 or 3); on success the transaction hash and block number are the log's own |
| `LogDecoder.EncodeLog` | script.py:102-113 | the ABI encoding of a TokensLocked emission has four topics and 64 data bytes |
| `LogDecoder.DecodeEncodedLog` | script.py:173-187 | decoding the encoding of (token, sender, nonce, amount, destinationChainId) recovers exactly those values, with the addresses in canonical text, and the log's transaction hash and block number |
| `LogDecoder.EncodeDecodedLog` | script.py:173-187 | a log with four topics, 64 data bytes and zero-padded address slots is the encoding of what it decodes to |
| `LogDecoder.ParseLogReadsOnly` | script.py:176-183 | two logs that agree on the low 20 bytes of topics 1 and 2, on topic 3, on the first 64 data bytes, and on tx hash and block number decode identically; topic 0, the upper 12 bytes of the address slots, extra topics and extra data are ignored |
| `LogDecoder.ParsedFieldsInRange` | script.py:176-183 | the nonce (and, for data of 64 bytes or more, the amount and chain id) are below 2^256, and the address fields parse back to the low 20 bytes of topics 1 and 2 |
| `Scanner.ParseAll` | script.py:150 | the comprehension succeeds exactly when every log decodes, and then gives one event per log, in order, each the decoding of the log at its position |
| `Scanner.ScanBlocks` | script.py:136-158 | from > to gives no query and no events; otherwise exactly one query for [from, to], the contract and the event topic; the events are empty or the decoding of all the logs the ledger returned |
| `Scanner.ScanKeepsLedgerOrder` | script.py:147-150 | when every log decodes, the scan returns one event per log in ledger order, each carrying its log's transaction hash and block number |
| `Scanner.ScanAllOrNothing` | script.py:136-158 | the events are empty exactly when the range is empty, the query raises (BlockNotFound or any other error), the ledger returns no logs, or some log has fewer than four topics |
| `Scanner.MalformedMiddleLogDropsBatch` | script.py:140-158 | three logs whose middle one has three topics give no events at all, although the first and last decode |
| `PollLoop.NextCursor` | script.py:296-316 | the cursor never decreases; it changes exactly when the cycle saw a head, cursor + 1 <= head - confirmations, and no exception escaped process_event; it then becomes head - confirmations |
| `PollLoop.CycleOutcome` | script.py:293-329 | a cycle scans exactly when cursor + 1 <= head - confirmations, and then it queries exactly [cursor + 1, head - confirmations]; its scan is scan_blocks of that range; it is aborted exactly when process_event raises on one of the scanned events, and then names that event's position; otherwise the report is NothingToScan with the head, Reconnecting after a ConnectionError, or Critical after any other exception |
| `PollLoop.RangesContiguous` | script.py:299-313 | over any run, the committed ranges are non-empty; the first starts just after the start cursor, each next one starts just after the previous one ends, and the last ends at the current cursor |
| `PollLoop.EveryBlockCommittedOnce` | script.py:299-313 | every block after the start cursor and up to the current cursor is in exactly one committed range, and no other block is in any range |
| `PollLoop.CursorMonotone` | script.py:301-313 | the cursor after a longer prefix of cycles is at least the cursor after a shorter prefix |
| `PollLoop.CursorFromObservedHead` | script.py:286-313 | the cursor is the start cursor, or head - confirmations for some head a cycle saw |
| `PollLoop.CursorWithinSafeHead` | script.py:286-313 | starting from head0 - confirmations - 1 with reported heads that never go down, the cursor never exceeds latest head - confirmations |
| `PollLoop.HeadRegressionLeavesCursorAhead` | script.py:296-316 | a head of 1005 followed by a head of 1000 leaves the cursor at 999, past 1000 - 6 |
| `PollLoop.FailedScanSkipsRange` | script.py:301-313 | a scanning cycle whose query fails yields no events, so it cannot be aborted; it moves the cursor to head - confirmations, and no later cycle commits any block of that range |
| `PollLoop.AbortedCycleRescans` | script.py:301-329 | after a cycle aborted by process_event the cursor is unchanged; the next cycle, with a head at least as high, scans from the same first block to at least the same last block, and with the same head and ledger it repeats the same query and events |
| `PollLoop.IntendedNextCursor` | script.py:312-313 | under the commit the retry message at script.py:153 promises, the cursor never decreases and moves, to head - confirmations, exactly when the cycle scans, the query returned logs that all decode, and nothing escaped process_event |
| `PollLoop.IntendedCommitDeliversAll` | script.py:312-313 | under that commit, a committed cycle is Scanned and handed over the decoding of every log the ledger returned, and the cursor becomes the top of its range |
| `PollLoop.IntendedFailedScanRescans` | script.py:312-313 | under that commit, a cycle whose query fails or whose batch does not decode keeps the cursor, where the code as written moves it; the next cycle, with a head at least as high, scans from the same first block over at least the same range |
| `PollLoop.FirstCycleScenario` | script.py:286-313 | with 6 confirmations and head 1000, the cursor starts at 993; the first cycle scans [994, 994], decodes nonce 42, amount 1000000 and chain 1 at block 994, and moves the cursor to 994 |
| `PollLoop.Listener.constructor` | script.py:286 | the cursor starts at head - confirmations - 1 with an empty history |
| `PollLoop.HandOver` | script.py:304-310 | the loop ends early exactly when the processor raises on the event at some position of the list, and then gives that position; when every call returns it finishes without one |
| `PollLoop.Listener.Step` | script.py:296-316 | one pass of the loop body from the current cursor reports CycleOutcome and leaves the cursor at NextCursor for the head it saw and whether it was aborted |
| `PollLoop.Listener.Cycle` | script.py:293-329 | the report is CycleOutcome of the old cursor; the new cursor is NextCursor of the old one; a committed range is [old cursor + 1, new cursor] and is appended to the history; an exception from get_latest_block or escaping process_event leaves the cursor unchanged |
| `PollLoop.Listener.Run` | script.py:293-331 | report k is CycleOutcome of the cursor that the first k cycles left; the cursor stays a function of the observed history and never goes down |
| `Configuration.Config.Get` | script.py:45 | getattr by variable name returns the attribute of that name |
| `Configuration.FirstFalsy` | script.py:44-46 | the index returned is the first value that `not getattr(...)` rejects, one that is unset or the empty string; every value before it is set and non-empty |
| `Configuration.Config.constructor` | script.py:27-34 | the configuration holds the given environment values |
| `Configuration.Config.RequiredValues` | script.py:38-43 | the required settings are checked in the order SOURCE_CHAIN_RPC, DESTINATION_CHAIN_RPC, BRIDGE_CONTRACT_ADDRESS, PRIVATE_KEY |
| `Configuration.Config.Validate` | script.py:36-47 | fails naming the first required variable, in that order, that is unset or empty; otherwise fails if the contract address is not an address, and else replaces it with its canonical text and changes nothing else |
| `Configuration.ValidatedAddressIsStable` | script.py:47 | normalising an already normalised contract address changes nothing |
| `Configuration.StartsWith` | script.py:343 | a line starts with the key exactly when it is the key followed by some rest |
| `Configuration.FirstMatch` | script.py:342-343 | the first line that starts with the key: no earlier line does |
| `Configuration.SecondField` | script.py:344 | the second '='-separated field starts right after the first '=' and runs to the next '=' or to the end of the line, and holds no '=' |
| `Configuration.Strip` | script.py:344 | the stripped text is a slice of the input with only str.isspace characters outside it and none at either of its ends |
| `Configuration.ConfigValue` | script.py:339-345 | returns None when no line starts with the key; fails when the first matching line has no '='; otherwise returns the stripped second field of that first matching line |

## Findings

| source | as written | input that shows it | evidently intended | confidence | as-written member | corrected member |
|---|---|---|---|---|---|---|
| script.py:312-313 | the cursor moves to `to_block` after every cycle that scans, whatever `scan_blocks` returned | cursor 993, 6 confirmations, head 1000, and a `get_logs` call that raises `BlockNotFound`: `scan_blocks` logs "Will retry" (script.py:153) and returns `[]`, and the cursor becomes 994, so block 994 is never scanned again | the cursor moves only after a successful scan, so the range is scanned again next cycle | high; not executed | `PollLoop.FailedScanSkipsRange` | `PollLoop.IntendedFailedScanRescans` |

## Left out

- `BlockchainConnector` (script.py:50-92): HTTP/Web3 connection and reconnect
  I/O. Its results (a head height or an exception) are inputs of a cycle.
- `DestinationChainProcessor.process_event` (script.py:206-254): the HTTP price
  lookup and the simulated mint. Its boolean result never affects the cursor.
  The model keeps which events a cycle hands to it, in order, and whether an
  exception escapes it on one of them (`SinkOutcome`). Such an exception is
  caught at script.py:327 before the cursor update, so the cycle is `Aborted`;
  a `ConnectionError` escaping it would take the reconnect branch instead, but
  the cursor is unchanged either way and the model reports both as `Aborted`.
- Keccak-256: both the event signature topic (script.py:122) and EIP-55 casing
  (script.py:47, 176-177) use it. The topic is a parameter of the listener.
  `Address.ChecksumAddress` renders digits in lower case instead of the EIP-55
  mixed case. It is injective and parses back, which is what the program relies
  on.
- `Address.ParseAddress`: follows the documented behaviour of the web3 library's
  `to_checksum_address` on text. Byte-string inputs are not modelled.
- `LogDecoder.ParseLog` on data shorter than 64 bytes: the code does no length
  check. The model slices the data the way Python does and reads the shorter
  slice big-endian. No contract says anything about that case.
- The transaction hash is kept as its bytes. Its `.hex()` text is an injective
  rendering of them and is not modelled.
- `time.sleep`, the doubled delay and the reconnect attempt after a
  `ConnectionError` (script.py:318-331): timing and network side effects. The
  model only keeps the facts that the cursor is unchanged and a `Reconnecting`
  report is produced.
- Start-up (script.py:256-290): reading the environment, the `int()` parsing of
  `POLL_INTERVAL_SECONDS` and `CONFIRMATIONS_REQUIRED`, logging set-up, and
  the early return when the first `get_latest_block` fails. The listener is
  created from a head that was obtained successfully.
- `Configuration.ConfigValue`: takes the file's lines as a parameter. Opening
  `config.ini`, and the exception when it is missing, are not modelled.
- Logging output everywhere.
