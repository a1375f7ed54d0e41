# Car-tracking chaincode: a Dafny model

This project models the transaction logic of a Hyperledger Fabric chaincode
that records vehicles and arbitrary key/value batches on the ledger
(`main.go`). A transaction names an action and passes string arguments; the
chaincode:

- dispatches on the action name (`Invoke`): `probe`, `createCarEntry`,
  `saveKV`, `query`, anything else is refused;
- `createCarEntry` parses a `CarDetails` record, resolves the caller's common
  name from their X.509 certificate, rejects a chassis number that is blank
  after `strings.TrimSpace`, overwrites the server-owned fields
  (manufacturer, updated-by, object type, status, transaction id, timestamp)
  and stores the record under its untrimmed chassis number with one
  `PutState`;
- `saveKV` stores one `{value, trxnId, id}` envelope per list entry, best
  effort, and reports the list length;
- `query` returns the stored bytes of a key, or an empty payload when the key
  is absent or the read fails;
- `getTrxnTS` renders the transaction time with Go's layout
  `2006.01.02.15.04.05.000` after adding its whole seconds to Go's zero
  `time.Time`, or returns the sentinel `0000.00.00.00.00.000`.

The world state is a `map<string, StoredValue>`; the ledger stub is a value
(`Records.Stub`) holding the transaction id, the optional transaction time,
the optional caller common name, and the outcomes of `GetState` and of each
`PutState` of the transaction. JSON parsing is a pair of total functions that
may fail (`Records.Codec`); a stored JSON document is represented by the
record it encodes (`Records.StoredValue`).

Layout:

- `records.dfy` (`Records`): entities, stub, write log and `ApplyWrites`, the
  world state after a sequence of `PutState` calls (last write wins);
- `contract.dfy` (`Contract`): each operation as a pure function returning
  the response and the `PutState` calls made, with lemmas relating them;
- `chaincode.dfy` (`Chaincode`): class `Ledger`, whose `state` field the
  methods `CreateCarEntry`, `SaveKV` and `Invoke` update in place, each
  proved to agree with `Contract`;
- `timestamp.dfy` (`Timestamp`), `calendar.dfy` (`Calendar`),
  `decimal.dfy` (`Decimal`): `getTrxnTS`, the proleptic Gregorian calendar
  from 0001-01-01, and zero-padded decimal fields;
- `whitespace.dfy` (`Whitespace`): Go's `unicode.IsSpace` and
  `strings.TrimSpace`.

Behaviour of the code worth noting:

- the transaction seconds are added to 0001-01-01 00:00:00 UTC (Go's zero
  `time.Time`), not to the Unix epoch, so a current Unix time prints as a
  date in the first century;
- the rendered timestamp has 23 characters, `YYYY.MM.DD.hh.mm.ss.000`: two
  second digits followed by three fractional digits that are always `000`;
- every operation reads only `args[0]` and accepts extra arguments; only an
  empty argument list is refused;
- `"Unknown."` is the name paired with a *failed* certificate lookup, and
  `createCarEntry` then aborts; a certificate whose common name is empty
  yields the empty name as a success.

## Model

| member | source | states |
|---|---|---|
| `Contract.Invoke` | main.go:134-150 | each of the four action names runs exactly its operation; any other name answers "Invalid action provoided" with no write; with no arguments every action but probe answers "Invalid number of arguments" with no write; only createCarEntry and saveKV ever write |
| `Chaincode.Ledger.Invoke` | main.go:134-150 | the in-place dispatcher answers and updates the world state exactly as `Contract.Invoke` says |
| `Contract.ErrorLeavesLedger` | main.go:57-147 | no invocation that answers with an error changes the world state, whatever the action: createCarEntry's errors including a refused put, saveKV's errors, query's missing argument and an unknown action |
| `Contract.Probe` | main.go:43-53 | probe always succeeds with a status text and writes nothing; without a readable time the `ts` field is empty |
| `Contract.InvokerIdentity` | main.go:152-160 | the lookup succeeds exactly when a certificate common name is available and then yields that name; on failure the name is "Unknown." |
| `Contract.CreateCarEntry` | main.go:55-88 | checks in order: no argument, unparsable payload, failed identity (even with a blank chassis), chassis that is all white space — each an error with no write; otherwise exactly one write, keyed by the untrimmed chassis number, of the client record with manufacturer = updated-by = caller name, object type "car", status "NEW", the transaction id and getTrxnTS, every other client field unchanged; the answer is the stored record, or the store error when the put is refused |
| `Chaincode.Ledger.CreateCarEntry` | main.go:55-88 | overwriting the fields one by one and calling PutState once gives the answer, write log and world state of `Contract.CreateCarEntry` |
| `Contract.CreateThenQuery` | main.go:74-87 | a successful createCarEntry changes exactly one key, the chassis number, and a query of that key whose read succeeds then returns the very payload createCarEntry answered |
| `Whitespace.TrimSpaceEmptyIff` | main.go:70 | a chassis number trims to empty exactly when every character is Unicode white space |
| `Whitespace.TrimSpaceIsInfix` | main.go:70 | TrimSpace removes only a white-space prefix and suffix, and what remains neither starts nor ends with white space |
| `Contract.SaveKV` | main.go:89-117 | no argument, unparsable list and empty list are errors with no write; otherwise N puts in list order, put i carrying the i-th outcome, entry i stored under its "key" entry with envelope {its "value" entry, transaction id, key}, a missing "key" or "value" entry reading as the empty string, and the answer "N records saved" |
| `Chaincode.Ledger.SaveKV` | main.go:89-117 | the loop over the list leaves the answer, write log and world state of `Contract.SaveKV` |
| `Contract.SaveKVAnswerIgnoresPuts` | main.go:113-116 | saveKV's answer is the same whichever puts the ledger refuses |
| `Contract.SaveKVThenQuery` | main.go:103-116 | after saveKV a key holds the envelope of the last list entry naming it whose put succeeded; a key no successful entry names is queried as before |
| `Records.ApplyWrites` | main.go:82 | the keys after a sequence of puts are the old keys plus the keys of the accepted puts |
| `Records.LastWrite` | main.go:103-114 | finds the last accepted put to a key, or reports there is none |
| `Records.ApplyWritesAt` | main.go:103-114 | last write wins: a key holds the value of its last accepted put, or its old value (or absence) when none was accepted |
| `Chaincode.Ledger.PutState` | main.go:113 | an accepted put stores the value under the key, a refused one changes nothing; either way the attempt is logged |
| `Contract.Query` | main.go:118-131 | query fails only without an argument; it returns the stored value when the read succeeds and the key is present, an empty payload otherwise, and never writes |
| `Decimal.NatToStringRoundTrip` | main.go:116 | the count in "N records saved" is written in decimal without leading zeros and reads back as N |
| `Decimal.NatToStringInjective` | main.go:116 | different counts give different answers |
| `Timestamp.TrxnTS` | main.go:161-169 | an unreadable time gives exactly "0000.00.00.00.00.000"; a readable one gives 23 characters ending in ".000" |
| `Timestamp.TrxnTSMeaning` | main.go:166-168 | a readable time prints as a valid date-time lying exactly s seconds after 0001-01-01 00:00:00, with fraction 000, never equal to the sentinel |
| `Timestamp.TrxnTSInjective` | main.go:166-168 | different transaction seconds never print the same timestamp |
| `Timestamp.ParseFormat` | main.go:168 | every field printed by the layout reads back unchanged |
| `Timestamp.ParseSentinel` | main.go:164 | the sentinel does not have the layout's shape |
| `Decimal.PadRoundTrip` | main.go:168 | each zero-padded field has its width, is all digits and reads back as its value when the value fits the width |
| `Calendar.FromSecondsCorrect` | main.go:166-167 | adding s seconds to 0001-01-01 00:00:00 gives a valid date-time whose elapsed seconds are s |
| `Calendar.FromSecondsOfElapsed` | main.go:166-167 | every valid date-time is obtained from its elapsed seconds, so the conversion is a bijection |
| `Calendar.ElapsedInjective` | main.go:166-167 | two valid date-times with the same elapsed seconds are equal |
| `Calendar.YearAndDayCorrect` | main.go:167 | the 400/100/4/1-year cycle arithmetic finds the year containing a day number and the day within it |
| `Calendar.DaysBeforeYearClosedForm` | main.go:167 | the year-by-year day count equals 365(y-1) + (y-1)/4 - (y-1)/100 + (y-1)/400 |

## Left out

- `Init`, `main`, `shim.Start` and the logger: process start-up and logging, no logic.
- X.509 certificate extraction (`cid.GetX509Certificate`): a library call; its result is the stub's optional common name.
- `encoding/json`: parsing is the `Codec` functions (which may fail), marshalling is the choice of `StoredValue` constructor; field-name matching, unknown fields and the byte encoding are not modelled. The marshalling error `createCarEntry` and `saveKV` discard cannot occur for string fields.
- probe's `tst.String()`: a protobuf text formatter; its output is the stub's opaque `txTimeText`.
- Fabric's own `PutState` rules (such as refusing an empty key) and `GetState` failures: outcomes supplied by the stub.
- Strings are sequences of Unicode code points; Go strings are bytes, so `TrimSpace` on invalid UTF-8 is not modelled.
- Timestamp.TrxnTS: modelled only for transaction seconds in 0..9223372036; beyond that `time.Duration(seconds) * time.Second` overflows int64, and below zero Go prints years before 1, whose rendering is not modelled.
- Contract.CreateCarEntry: requires the stub's transaction seconds to lie in that range only when every check passes and the record is stamped with getTrxnTS; its four error answers hold for any clock.
- Chaincode.Ledger.CreateCarEntry: the same range, under the same condition.
- Contract.Invoke: the same range, only for a createCarEntry call that passes every check.
- Chaincode.Ledger.Invoke: the same range, only for a createCarEntry call that passes every check.
- Contract.ErrorLeavesLedger: the same range, only for a createCarEntry call that passes every check (whose only error is a refused put).
