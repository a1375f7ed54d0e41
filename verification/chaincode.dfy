/** The chaincode run against a world state it updates in place: Invoke,
    createCarEntry and saveKV as methods, each proved to answer and write
    exactly as the Contract module says. */
module Chaincode {
  import opened Records
  import opened Whitespace
  import opened Timestamp
  import Contract

  /** The world state the ledger stub reads and writes during transactions. */
  class Ledger {
    var state: WorldState
    /** Every PutState made so far, in order, accepted or not. */
    ghost var writes: seq<Write>

    constructor (initial: WorldState)
      ensures state == initial && writes == []
    {
      state := initial;
      writes := [];
    }

    /** stub.PutState: stores value under key unless the ledger refuses it. */
    method PutState(key: string, value: StoredValue, accepted: bool) returns (ok: bool)
      modifies this
      ensures ok == accepted
      ensures writes == old(writes) + [Write(key, value, accepted)]
      ensures state == ApplyWrites(old(state), [Write(key, value, accepted)])
    {
      ok := accepted;
      if accepted {
        state := state[key := value];
      }
      writes := writes + [Write(key, value, accepted)];
    }

    /** createCarEntry: validate the record, overwrite the server-owned
        fields one by one, then make its single PutState. */
    method CreateCarEntry(codec: Codec, stub: Stub, args: seq<string>) returns (response: Response)
      requires Contract.CreateAccepted(codec, stub, args) ==> Contract.ClockInRange(stub)
      modifies this
      ensures var o := Contract.CreateCarEntry(codec, stub, args);
        && response == o.response
        && writes == old(writes) + o.writes
        && state == ApplyWrites(old(state), o.writes)
    {
      if |args| < 1 {
        return Error(Contract.ArityMessage);
      }
      var parsed := codec.parseCar(args[0]);
      if parsed.None? {
        return Error(Contract.ParseCarMessage);
      }
      var carDetails := parsed.value;
      var (idOk, manuf) := Contract.InvokerIdentity(stub.callerCommonName);
      if !idOk {
        return Error(Contract.IdentityMessage);
      }
      TrimSpaceEmptyIff(carDetails.chasisNumber);
      if TrimSpace(carDetails.chasisNumber) == "" {
        return Error(Contract.NoChasisMessage);
      }
      carDetails := carDetails.(manufacturer := manuf);
      carDetails := carDetails.(objType := "car");
      carDetails := carDetails.(updateBy := manuf);
      carDetails := carDetails.(status := "NEW");
      carDetails := carDetails.(trxnId := stub.txId);
      carDetails := carDetails.(updateTs := TrxnTS(stub.txTime));
      var ok := PutState(carDetails.chasisNumber, CarRecord(carDetails), stub.putSucceeds(0));
      if !ok {
        return Error(Contract.StoreCarMessage);
      }
      return Success(Bytes(CarRecord(carDetails)));
    }

    /** saveKV: one PutState per list entry, in order, ignoring each
        outcome; the answer counts the entries. */
    method SaveKV(codec: Codec, stub: Stub, args: seq<string>) returns (response: Response)
      modifies this
      ensures var o := Contract.SaveKV(codec, stub, args);
        && response == o.response
        && writes == old(writes) + o.writes
        && state == ApplyWrites(old(state), o.writes)
    {
      if |args| < 1 {
        return Error(Contract.ArityMessage);
      }
      var parsed := codec.parseKvList(args[0]);
      if parsed.None? {
        return Error(Contract.ParseKvMessage);
      }
      var kvList := parsed.value;
      if |kvList| == 0 {
        return Error(Contract.EmptyKvMessage);
      }
      ghost var planned := Contract.SaveKVWrites(kvList, stub);
      for i := 0 to |kvList|
        invariant writes == old(writes) + planned[..i]
        invariant state == ApplyWrites(old(state), planned[..i])
      {
        var kv := kvList[i];
        var key := Contract.Field(kv, "key");
        var value := Contract.Field(kv, "value");
        var txID := stub.txId;
        var dataToStore := Envelope(value, txID, key);
        var ignored := PutState(key, KvRecord(dataToStore), stub.putSucceeds(i));
        ApplyWritesAppend(old(state), planned[..i], planned[i]);
        assert planned[..i + 1] == planned[..i] + [planned[i]];
      }
      assert planned[..|kvList|] == planned;
      return Success(Text(Contract.SavedMessage(|kvList|)));
    }

    /** Invoke: route the action to its operation; unknown actions touch
        nothing. */
    method Invoke(codec: Codec, stub: Stub, action: string, args: seq<string>) returns (response: Response)
      requires action == "createCarEntry" && Contract.CreateAccepted(codec, stub, args) ==> Contract.ClockInRange(stub)
      modifies this
      ensures var o := Contract.Invoke(old(state), codec, stub, action, args);
        && response == o.response
        && writes == old(writes) + o.writes
        && state == ApplyWrites(old(state), o.writes)
    {
      match action
      case "probe" =>
        response := Contract.Probe(stub);
      case "createCarEntry" =>
        response := CreateCarEntry(codec, stub, args);
      case "saveKV" =>
        response := SaveKV(codec, stub, args);
      case "query" =>
        response := Contract.Query(state, stub, args);
      case _ =>
        response := Error(Contract.InvalidActionMessage);
    }
  }
}
