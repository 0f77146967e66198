/**
 What one admitted pack RPC does with its slot and its accounting line
 (crates/jeryu-gitd/src/pack_rpc.rs). How the wait for the slot ends is the
 business of module PackRpcGate and a parameter here; what many of them do at
 once that of module PackRpcLedger.
 */
module PackRpcAdmission {
  import opened Common

  datatype Outcome = Served | Busy | Failed

  /** `limit` is 0 for a streamed RPC. */
  datatype Record = Record(limit: nat, running: nat, bytesIn: nat, bytesOut: nat, outcome: Outcome)

  /** The counter of the gate, under its mutex. */
  class Gate {
    const limit: nat
    var running: nat

    constructor (limit: nat)
      ensures this.limit == limit && running == 0
    {
      this.limit, running := limit, 0;
    }

    /** Dropping a permit. */
    method Release()
      modifies this
      ensures running == if old(running) == 0 then 0 else old(running) - 1
    {
      running := if running < 1 then 0 else running - 1;
    }
  }

  /** Where records go, one line each. */
  class Journal {
    var lines: seq<Record>

    constructor ()
      ensures lines == []
    {
      lines := [];
    }

    method Emit(record: Record)
      modifies this
      ensures lines == old(lines) + [record]
    {
      lines := lines + [record];
    }
  }

  /** An RPC under way; `permit` is null when it is recorded but not bounded. */
  class Admission {
    var permit: Gate?
    var record: Record
    var open: bool
    const journal: Journal

    constructor (permit: Gate?, record: Record, journal: Journal)
      ensures this.permit == permit && this.record == record && this.journal == journal && open
    {
      this.permit, this.record, this.journal, open := permit, record, journal, true;
    }

    /** The record this RPC leaves behind when it ends with `bytesOut`. */
    function Closing(bytesOut: Option<nat>): Record
      reads this
    {
      match bytesOut
      case Some(bytes) => record.(bytesOut := bytes, outcome := Served)
      case None => record.(outcome := Failed)
    }

    /** The first closing frees the slot and emits the record; later ones do nothing. */
    method Close(bytesOut: Option<nat>)
      modifies this, journal, permit
      ensures !open
      ensures old(open) ==> permit == null && journal.lines == old(journal.lines) + [old(Closing(bytesOut))]
      ensures old(open) && old(permit) != null ==>
        old(permit).running == if old(permit.running) == 0 then 0 else old(permit.running) - 1
      ensures !old(open) ==> journal.lines == old(journal.lines) && permit == old(permit) && record == old(record)
      ensures !old(open) && old(permit) != null ==> old(permit).running == old(permit.running)
    {
      var wasOpen := open;
      open := false;
      if !wasOpen {
        return;
      }
      if permit != null {
        permit.Release();
        permit := null;
      }
      match bytesOut {
        case Some(bytes) => record := record.(bytesOut := bytes, outcome := Served);
        case None => record := record.(outcome := Failed);
      }
      journal.Emit(record);
    }

    /** Drop, also at the end of `Finish`, which consumes the value. */
    method Drop()
      modifies this, journal, permit
      ensures !open
      ensures old(open) ==> journal.lines == old(journal.lines) + [old(Closing(None))]
      ensures old(open) && old(permit) != null ==>
        old(permit).running == if old(permit.running) == 0 then 0 else old(permit.running) - 1
      ensures !old(open) ==> journal.lines == old(journal.lines) && permit == old(permit)
      ensures !old(open) && old(permit) != null ==> old(permit).running == old(permit.running)
    {
      Close(None);
    }

    /** One slot is freed and one record emitted, though the value is dropped after it is closed. */
    method Finish(bytesOut: Option<nat>)
      requires open
      modifies this, journal, permit
      ensures !open && permit == null
      ensures journal.lines == old(journal.lines) + [old(Closing(bytesOut))]
      ensures old(permit) != null ==>
        old(permit).running == if old(permit.running) == 0 then 0 else old(permit.running) - 1
    {
      Close(bytesOut);
      Drop();
    }
  }

  /** Record a streamed RPC, which takes no slot. */
  method RecordStreamed(bytesIn: nat, journal: Journal) returns (a: Admission)
    ensures fresh(a) && a.open && a.permit == null && a.journal == journal
    ensures a.record == Record(0, 0, bytesIn, 0, Busy)
  {
    a := new Admission(null, Record(0, 0, bytesIn, 0, Busy), journal);
  }

  /** `free` says how the wait for a slot ended; a refused request is recorded here. */
  method Admit(gate: Gate, free: bool, bytesIn: nat, journal: Journal) returns (a: Option<Admission>)
    requires free ==> gate.running < gate.limit
    modifies gate, journal
    ensures a.Some? <==> free
    ensures a.Some? ==> fresh(a.value) && a.value.open && a.value.permit == gate && a.value.journal == journal
    ensures a.Some? ==> gate.running == old(gate.running) + 1 && journal.lines == old(journal.lines)
    ensures a.Some? ==> a.value.record == Record(gate.limit, gate.running, bytesIn, 0, Busy)
    ensures a.None? ==> gate.running == old(gate.running)
    ensures a.None? ==> journal.lines == old(journal.lines) + [Record(gate.limit, 0, bytesIn, 0, Busy)]
  {
    var record := Record(gate.limit, 0, bytesIn, 0, Busy);
    if free {
      gate.running := gate.running + 1;
      var admission := new Admission(gate, record.(running := gate.running), journal);
      a := Some(admission);
    } else {
      journal.Emit(record);
      a := None;
    }
  }

  /**
   A whole bounded RPC with no other under way: `result` is the size of its response, `None` when it
   failed. Whatever happens, the gate ends as it began and exactly one record
   is left, which tells the three endings apart.
   */
  method Admitted(gate: Gate, free: bool, bytesIn: nat, result: Option<nat>, journal: Journal)
    returns (served: bool)
    requires free ==> gate.running < gate.limit
    modifies gate, journal
    ensures gate.running == old(gate.running)
    ensures |journal.lines| == |old(journal.lines)| + 1 && old(journal.lines) < journal.lines
    ensures var line := journal.lines[|old(journal.lines)|];
      && line.limit == gate.limit && line.bytesIn == bytesIn
      && (line.outcome == Busy <==> !free)
      && (line.outcome == Served <==> free && result.Some?)
      && (line.outcome == Served ==> line.bytesOut == result.value)
      && (line.outcome != Served ==> line.bytesOut == 0)
      && line.running == (if free then old(gate.running) + 1 else 0)
    ensures served <==> free && result.Some?
  {
    var admission := Admit(gate, free, bytesIn, journal);
    if admission.None? {
      return false;
    }
    admission.value.Finish(result);
    served := result.Some?;
  }

  /** An RPC abandoned half-way, with no other under way: the drop frees the slot and records an error. */
  method Abandoned(gate: Gate, bytesIn: nat, journal: Journal)
    requires gate.running < gate.limit
    modifies gate, journal
    ensures gate.running == old(gate.running)
    ensures journal.lines == old(journal.lines) + [Record(gate.limit, old(gate.running) + 1, bytesIn, 0, Failed)]
  {
    var admission := Admit(gate, true, bytesIn, journal);
    admission.value.Drop();
  }
}
