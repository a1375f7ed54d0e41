/** What each chaincode operation returns and which PutState calls it makes,
    as pure functions of the stub's answers. The class Chaincode.Ledger runs
    the operations step by step and is proved to agree with these. */
module Contract {
  import opened Records
  import opened Decimal
  import opened Whitespace
  import opened Timestamp

  const ArityMessage := "Invalid number of arguments"
  const ParseCarMessage := "Unable to parse the input car details JSON"
  const IdentityMessage := "Unable to retrive the invoker ID"
  const NoChasisMessage := "No chasis number provided"
  const StoreCarMessage := "Unable to store the car details "
  const ParseKvMessage := "Can not convert input JSON to valid input"
  const EmptyKvMessage := "Empty data provided"
  const InvalidActionMessage := "Invalid action provoided"
  /** The name getInvokerIdentity pairs with a failed lookup. */
  const UnknownCaller := "Unknown."

  const Actions := {"probe", "createCarEntry", "saveKV", "query"}

  /** The response of one invocation and the PutState calls it made, in order. */
  datatype Outcome = Outcome(response: Response, writes: seq<Write>)

  /** The transaction times getTrxnTS is modelled for. */
  predicate ClockInRange(stub: Stub) {
    stub.txTime.Some? ==> InDurationRange(stub.txTime.value)
  }

  /** getInvokerIdentity: the caller certificate's common name, or a failure
      flag paired with the placeholder name. */
  function InvokerIdentity(commonName: Option<string>): (r: (bool, string))
    ensures r.0 <==> commonName.Some?
    ensures r.0 ==> r.1 == commonName.value
    ensures !r.0 ==> r.1 == UnknownCaller
  {
    match commonName
    case None => (false, UnknownCaller)
    case Some(cn) => (true, cn)
  }

  /** probe: a fixed status object embedding the text rendering of the
      transaction time, or nothing when the time cannot be read. */
  function Probe(stub: Stub): (r: Response)
    ensures r.Success? && r.payload.Text?
    ensures stub.txTime.None? ==> r.payload.text == "{\"status\":\"Success\",\"ts\" : \"\" }"
  {
    var ts := if stub.txTime.Some? then stub.txTimeText else "";
    Success(Text("{\"status\":\"Success\",\"ts\" : \"" + ts + "\" }"))
  }

  /** The stored record r is the client's record c with the server-owned
      fields taken from the caller and the transaction. */
  predicate StampedFrom(r: CarDetails, c: CarDetails, caller: string, stub: Stub)
    requires ClockInRange(stub)
  {
    && r.manufacturer == caller && r.updateBy == caller
    && r.objType == "car" && r.status == "NEW"
    && r.trxnId == stub.txId && r.updateTs == TrxnTS(stub.txTime)
    && r.chasisNumber == c.chasisNumber && r.year == c.year && r.model == c.model
    && r.color == c.color && r.lisenseNunber == c.lisenseNunber
    && r.dealer == c.dealer && r.ownerName == c.ownerName
  }

  /** The checks createCarEntry passes before it writes. */
  predicate CreateAccepted(codec: Codec, stub: Stub, args: seq<string>) {
    && |args| >= 1
    && codec.parseCar(args[0]).Some?
    && stub.callerCommonName.Some?
    && !AllSpace(codec.parseCar(args[0]).value.chasisNumber)
  }

  /** createCarEntry. */
  function CreateCarEntry(codec: Codec, stub: Stub, args: seq<string>): (o: Outcome)
    requires CreateAccepted(codec, stub, args) ==> ClockInRange(stub)
    ensures |args| == 0 ==> o == Outcome(Error(ArityMessage), [])
    ensures |args| >= 1 && codec.parseCar(args[0]).None? ==> o == Outcome(Error(ParseCarMessage), [])
    ensures |args| >= 1 && codec.parseCar(args[0]).Some? && stub.callerCommonName.None?
      ==> o == Outcome(Error(IdentityMessage), [])
    ensures |args| >= 1 && codec.parseCar(args[0]).Some? && stub.callerCommonName.Some?
      && AllSpace(codec.parseCar(args[0]).value.chasisNumber)
      ==> o == Outcome(Error(NoChasisMessage), [])
    ensures o.writes != [] <==> CreateAccepted(codec, stub, args)
    ensures CreateAccepted(codec, stub, args) ==>
      var c := codec.parseCar(args[0]).value;
      && |o.writes| == 1
      && o.writes[0].key == c.chasisNumber
      && o.writes[0].accepted == stub.putSucceeds(0)
      && o.writes[0].value.CarRecord?
      && StampedFrom(o.writes[0].value.car, c, stub.callerCommonName.value, stub)
      && o.response == if stub.putSucceeds(0) then Success(Bytes(o.writes[0].value)) else Error(StoreCarMessage)
  {
    if |args| < 1 then Outcome(Error(ArityMessage), [])
    else match codec.parseCar(args[0])
      case None => Outcome(Error(ParseCarMessage), [])
      case Some(carDetails) =>
        var (idOk, manuf) := InvokerIdentity(stub.callerCommonName);
        if !idOk then Outcome(Error(IdentityMessage), [])
        else
          TrimSpaceEmptyIff(carDetails.chasisNumber);
          if TrimSpace(carDetails.chasisNumber) == "" then Outcome(Error(NoChasisMessage), [])
          else
            var stored := carDetails.(manufacturer := manuf, objType := "car", updateBy := manuf,
                                      status := "NEW", trxnId := stub.txId, updateTs := TrxnTS(stub.txTime));
            var w := Write(stored.chasisNumber, CarRecord(stored), stub.putSucceeds(0));
            if w.accepted then Outcome(Success(Bytes(CarRecord(stored))), [w])
            else Outcome(Error(StoreCarMessage), [w])
  }

  /** kv[name] on a Go map[string]string: the empty string when absent. */
  function Field(kv: KvEntry, name: string): string
  {
    if name in kv then kv[name] else ""
  }

  /** The PutState saveKV makes for list entry i. */
  function EntryWrite(kv: KvEntry, stub: Stub, i: nat): Write {
    var key := Field(kv, "key");
    Write(key, KvRecord(Envelope(Field(kv, "value"), stub.txId, key)), stub.putSucceeds(i))
  }

  /** All the PutState calls of saveKV, one per entry, in list order. */
  function SaveKVWrites(kvList: seq<KvEntry>, stub: Stub): seq<Write>
  {
    seq(|kvList|, i requires 0 <= i < |kvList| => EntryWrite(kvList[i], stub, i))
  }

  function SavedMessage(n: nat): string {
    NatToString(n) + " records saved"
  }

  /** saveKV. */
  function SaveKV(codec: Codec, stub: Stub, args: seq<string>): (o: Outcome)
    ensures |args| == 0 ==> o == Outcome(Error(ArityMessage), [])
    ensures |args| >= 1 && codec.parseKvList(args[0]).None? ==> o == Outcome(Error(ParseKvMessage), [])
    ensures |args| >= 1 && codec.parseKvList(args[0]) == Some([]) ==> o == Outcome(Error(EmptyKvMessage), [])
    ensures |args| >= 1 && codec.parseKvList(args[0]).Some? && codec.parseKvList(args[0]).value != [] ==>
      var kvList := codec.parseKvList(args[0]).value;
      && o.response == Success(Text(SavedMessage(|kvList|)))
      && |o.writes| == |kvList|
      && forall i :: 0 <= i < |kvList| ==>
           var key := if "key" in kvList[i] then kvList[i]["key"] else "";
           var value := if "value" in kvList[i] then kvList[i]["value"] else "";
           o.writes[i] == Write(key, KvRecord(Envelope(value, stub.txId, key)), stub.putSucceeds(i))
  {
    if |args| < 1 then Outcome(Error(ArityMessage), [])
    else match codec.parseKvList(args[0])
      case None => Outcome(Error(ParseKvMessage), [])
      case Some(kvList) =>
        if |kvList| == 0 then Outcome(Error(EmptyKvMessage), [])
        else Outcome(Success(Text(SavedMessage(|kvList|))), SaveKVWrites(kvList, stub))
  }

  /** query: never fails once a key is given; absence and read errors read
      as an empty payload. */
  function Query(ledger: WorldState, stub: Stub, args: seq<string>): (r: Response)
    ensures r.Error? <==> |args| == 0
    ensures r.Error? ==> r.message == ArityMessage
    ensures |args| >= 1 && stub.getSucceeds && args[0] in ledger ==> r == Success(Bytes(ledger[args[0]]))
    ensures |args| >= 1 && (!stub.getSucceeds || args[0] !in ledger) ==> r == Success(Empty)
  {
    if |args| < 1 then Error(ArityMessage)
    else
      var key := args[0];
      if !stub.getSucceeds then Success(Empty)
      else if key in ledger then Success(Bytes(ledger[key]))
      else Success(Empty)
  }

  /** Invoke: route the action to its operation. */
  function Invoke(ledger: WorldState, codec: Codec, stub: Stub, action: string, args: seq<string>): (o: Outcome)
    requires action == "createCarEntry" && CreateAccepted(codec, stub, args) ==> ClockInRange(stub)
    ensures action !in Actions ==> o == Outcome(Error(InvalidActionMessage), [])
    ensures action == "probe" ==> o == Outcome(Probe(stub), [])
    ensures action == "createCarEntry" ==> o == CreateCarEntry(codec, stub, args)
    ensures action == "saveKV" ==> o == SaveKV(codec, stub, args)
    ensures action == "query" ==> o == Outcome(Query(ledger, stub, args), [])
    ensures |args| == 0 && action in Actions - {"probe"} ==> o == Outcome(Error(ArityMessage), [])
    ensures o.writes != [] ==> action == "createCarEntry" || action == "saveKV"
  {
    if action == "probe" then Outcome(Probe(stub), [])
    else if action == "createCarEntry" then CreateCarEntry(codec, stub, args)
    else if action == "saveKV" then SaveKV(codec, stub, args)
    else if action == "query" then Outcome(Query(ledger, stub, args), [])
    else Outcome(Error(InvalidActionMessage), [])
  }

  // ---- lemmas relating the operations --------------------------------------

  /** No invocation that answers with an error changes the world state. */
  lemma ErrorLeavesLedger(ledger: WorldState, codec: Codec, stub: Stub, action: string, args: seq<string>)
    requires action == "createCarEntry" && CreateAccepted(codec, stub, args) ==> ClockInRange(stub)
    requires Invoke(ledger, codec, stub, action, args).response.Error?
    ensures ApplyWrites(ledger, Invoke(ledger, codec, stub, action, args).writes) == ledger
  {
    var o := Invoke(ledger, codec, stub, action, args);
    if o.writes != [] {
      assert action == "createCarEntry";
      assert |o.writes| == 1 && !o.writes[0].accepted;
      assert o.writes[..0] == [];
    }
  }

  /** A successful createCarEntry changes exactly one key, the untrimmed
      chassis number, and query on that key then returns what
      createCarEntry answered. */
  lemma CreateThenQuery(ledger: WorldState, codec: Codec, stub: Stub, args: seq<string>, reader: Stub)
    requires ClockInRange(stub)
    requires CreateCarEntry(codec, stub, args).response.Success?
    requires reader.getSucceeds
    ensures CreateAccepted(codec, stub, args)
    ensures var o := CreateCarEntry(codec, stub, args);
      var key := codec.parseCar(args[0]).value.chasisNumber;
      var after := ApplyWrites(ledger, o.writes);
      && after == ledger[key := o.writes[0].value]
      && Query(after, reader, [key]) == o.response
  {
    var o := CreateCarEntry(codec, stub, args);
    assert o.writes[..0] == [];
  }

  /** After saveKV, a key holds the envelope of the last entry for it whose
      PutState succeeded; a key no successful entry names is as before. */
  lemma SaveKVThenQuery(ledger: WorldState, codec: Codec, stub: Stub, args: seq<string>, k: string, reader: Stub)
    requires |args| >= 1 && codec.parseKvList(args[0]).Some?
    requires reader.getSucceeds
    ensures var kvList := codec.parseKvList(args[0]).value;
      var after := ApplyWrites(ledger, SaveKV(codec, stub, args).writes);
      if exists i :: 0 <= i < |kvList| && Field(kvList[i], "key") == k && stub.putSucceeds(i) then
        exists j :: && 0 <= j < |kvList| && Field(kvList[j], "key") == k && stub.putSucceeds(j)
                    && (forall i :: j < i < |kvList| ==> !(Field(kvList[i], "key") == k && stub.putSucceeds(i)))
                    && Query(after, reader, [k]) == Success(Bytes(KvRecord(Envelope(Field(kvList[j], "value"), stub.txId, k))))
      else
        Query(after, reader, [k]) == Query(ledger, reader, [k])
  {
    var kvList := codec.parseKvList(args[0]).value;
    var ws := SaveKV(codec, stub, args).writes;
    assert ws == SaveKVWrites(kvList, stub) by {
      if kvList == [] {
        assert SaveKVWrites(kvList, stub) == [];
      }
    }
    ApplyWritesAt(ledger, ws, k);
    LastSavedEntry(kvList, stub, k);
  }

  /** The last accepted put of saveKV to key k is that of the last list entry
      naming k whose put succeeded. */
  lemma LastSavedEntry(kvList: seq<KvEntry>, stub: Stub, k: string)
    ensures var j := LastWrite(SaveKVWrites(kvList, stub), k);
      && (j >= 0 ==> Field(kvList[j], "key") == k && stub.putSucceeds(j))
      && (forall i :: j < i < |kvList| ==> !(Field(kvList[i], "key") == k && stub.putSucceeds(i)))
  {
    var ws := SaveKVWrites(kvList, stub);
    var j := LastWrite(ws, k);
    forall i | j < i < |kvList|
      ensures !(Field(kvList[i], "key") == k && stub.putSucceeds(i))
    {
      assert ws[i] == EntryWrite(kvList[i], stub, i);
    }
  }

  /** saveKV is best effort: its answer does not depend on which PutState
      calls succeed. */
  lemma SaveKVAnswerIgnoresPuts(codec: Codec, stub: Stub, args: seq<string>, outcomes: nat -> bool)
    ensures SaveKV(codec, stub, args).response == SaveKV(codec, stub.(putSucceeds := outcomes), args).response
  {
  }
}
