/** The chaincode's entities, the ledger stub's answers, and the effect of a
    sequence of PutState calls on the world state. */
module Records {

  datatype Option<+T> = None | Some(value: T)

  /** CarDetails (main.go:21-35); field names follow the Go struct, spelling
      included. */
  datatype CarDetails = CarDetails(
    objType: string,
    chasisNumber: string,
    manufacturer: string,
    year: string,
    model: string,
    color: string,
    lisenseNunber: string,
    status: string,
    dealer: string,
    ownerName: string,
    updateTs: string,
    trxnId: string,
    updateBy: string)

  /** The {value, trxnId, id} object saveKV stores for each entry. */
  datatype Envelope = Envelope(value: string, trxnId: string, id: string)

  /** What a world-state key holds: the JSON of one of the two records. JSON
      encoding is abstracted as the choice of constructor. */
  datatype StoredValue = CarRecord(car: CarDetails) | KvRecord(envelope: Envelope)

  /** The payload bytes of a successful response. */
  datatype Payload = Empty | Bytes(stored: StoredValue) | Text(text: string)

  /** shim.Success carries a payload, shim.Error a message. */
  datatype Response = Success(payload: Payload) | Error(message: string)

  /** One element of saveKV's input list, a JSON object of strings. */
  type KvEntry = map<string, string>

  /** encoding/json as the chaincode uses it: each parse may fail. */
  datatype Codec = Codec(
    parseCar: string -> Option<CarDetails>,
    parseKvList: string -> Option<seq<KvEntry>>)

  /** What the ledger stub answers during one transaction:
      - txId: GetTxID;
      - txTime: GetTxTimestamp's whole seconds, None when it fails;
      - txTimeText: the timestamp message's text rendering (used by probe only);
      - callerCommonName: the subject common name of the caller's X.509
        certificate, None when the certificate cannot be retrieved;
      - getSucceeds: whether GetState returns without error;
      - putSucceeds(i): whether the i-th PutState of the transaction succeeds. */
  datatype Stub = Stub(
    txId: string,
    txTime: Option<int>,
    txTimeText: string,
    callerCommonName: Option<string>,
    getSucceeds: bool,
    putSucceeds: nat -> bool)

  type WorldState = map<string, StoredValue>

  /** One PutState call: its key, its value and whether the ledger took it. */
  datatype Write = Write(key: string, value: StoredValue, accepted: bool)

  /** The world state after the writes, in order; a refused write changes nothing. */
  function ApplyWrites(ledger: WorldState, ws: seq<Write>): (r: WorldState)
    ensures r.Keys == ledger.Keys + AcceptedKeys(ws)
  {
    if ws == [] then ledger
    else
      var w := ws[|ws| - 1];
      var before := ApplyWrites(ledger, ws[..|ws| - 1]);
      assert AcceptedKeys(ws) == AcceptedKeys(ws[..|ws| - 1]) + (if w.accepted then {w.key} else {});
      if w.accepted then before[w.key := w.value] else before
  }

  /** Keys of the writes the ledger accepted. */
  function AcceptedKeys(ws: seq<Write>): set<string>
  {
    set i | 0 <= i < |ws| && ws[i].accepted :: ws[i].key
  }

  /** Index of the last accepted write to key k, or -1 when there is none. */
  function LastWrite(ws: seq<Write>, k: string): (j: int)
    ensures -1 <= j < |ws|
    ensures j >= 0 ==> ws[j].key == k && ws[j].accepted
    ensures forall i :: j < i < |ws| ==> !(ws[i].key == k && ws[i].accepted)
  {
    if ws == [] then -1
    else if ws[|ws| - 1].key == k && ws[|ws| - 1].accepted then |ws| - 1
    else LastWrite(ws[..|ws| - 1], k)
  }

  /** Last write wins: after the writes, a key holds the value of its last
      accepted write, or what it held before when no write to it was accepted. */
  lemma {:induction false} ApplyWritesAt(ledger: WorldState, ws: seq<Write>, k: string)
    ensures var r := ApplyWrites(ledger, ws); var j := LastWrite(ws, k);
      if j >= 0 then k in r && r[k] == ws[j].value
      else (k in r <==> k in ledger) && (k in ledger ==> r[k] == ledger[k])
  {
    if ws != [] {
      ApplyWritesAt(ledger, ws[..|ws| - 1], k);
    }
  }

  lemma ApplyWritesAppend(ledger: WorldState, ws: seq<Write>, w: Write)
    ensures ApplyWrites(ledger, ws + [w])
      == if w.accepted then ApplyWrites(ledger, ws)[w.key := w.value] else ApplyWrites(ledger, ws)
  {
    assert (ws + [w])[..|ws|] == ws;
  }
}
