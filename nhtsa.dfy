/**
 * `decodeVIN` of the NHTSA client: the guards in front of the request and
 * the field extraction that walks the `Results` array.  The HTTP request is
 * not made here; its outcome is an input.
 */
module Nhtsa {
  import opened Wrappers

  /** The nine optional properties of the vehicle record. */
  datatype Field =
    | Make | Model | ModelYear | VehicleType | EngineModel
    | FuelTypePrimary | TransmissionStyle | DriveType | BodyClass

  /** The vehicle record: a property is present exactly when it is a key. */
  type VehicleData = map<Field, string>

  /** One element of `Results`: a `Variable` label and its `Value`. */
  datatype Entry = Entry(variable: string, value: string)

  /** The JSON body of the reply; `Results` may be missing. */
  datatype Body = Body(results: Option<seq<Entry>>)

  /** What `fetch` and `json` produce: a failure (thrown), or a response with its status and body. */
  datatype Reply = Failure | Response(ok: bool, body: Body)

  /** The `case` label of each property. */
  function LabelOf(f: Field): string {
    match f
    case Make => "Make"
    case Model => "Model"
    case ModelYear => "Model Year"
    case VehicleType => "Vehicle Type"
    case EngineModel => "Engine Model"
    case FuelTypePrimary => "Fuel Type - Primary"
    case TransmissionStyle => "Transmission Style"
    case DriveType => "Drive Type"
    case BodyClass => "Body Class"
  }

  /** The `switch` on `Variable`: the property a label selects, if any (there is no `default`). */
  function FieldOf(variable: string): (r: Option<Field>)
    ensures forall f :: r == Some(f) <==> LabelOf(f) == variable
  {
    if variable == "Make" then Some(Make)
    else if variable == "Model" then Some(Model)
    else if variable == "Model Year" then Some(ModelYear)
    else if variable == "Vehicle Type" then Some(VehicleType)
    else if variable == "Engine Model" then Some(EngineModel)
    else if variable == "Fuel Type - Primary" then Some(FuelTypePrimary)
    else if variable == "Transmission Style" then Some(TransmissionStyle)
    else if variable == "Drive Type" then Some(DriveType)
    else if variable == "Body Class" then Some(BodyClass)
    else None
  }

  /** The entry selects the property `f`. */
  predicate Selects(e: Entry, f: Field) {
    e.variable == LabelOf(f)
  }

  /** The value the last entry selecting `f` carries, scanning from the end. */
  function LastValue(results: seq<Entry>, f: Field): Option<string>
    decreases |results|
  {
    if results == [] then None
    else if Selects(results[|results| - 1], f) then Some(results[|results| - 1].value)
    else LastValue(results[..|results| - 1], f)
  }

  /** `LastValue` is `None` exactly when no entry selects `f`. */
  lemma {:induction false} LastValueNoneIffUnselected(results: seq<Entry>, f: Field)
    ensures LastValue(results, f).None? <==> forall i :: 0 <= i < |results| ==> !Selects(results[i], f)
    decreases |results|
  {
    if results != [] {
      var n := |results| - 1;
      var front := results[..n];
      LastValueNoneIffUnselected(front, f);
      assert forall i :: 0 <= i < n ==> results[i] == front[i];
    }
  }

  /**
   * An independent reading of `LastValue` when it is `Some(v)`: some entry
   * selecting `f` carries `v` and no later entry selects `f`.
   */
  lemma {:induction false} LastValueIsLastSelecting(results: seq<Entry>, f: Field) returns (i: int)
    requires LastValue(results, f).Some?
    ensures 0 <= i < |results| && Selects(results[i], f) && results[i].value == LastValue(results, f).value
    ensures forall j :: i < j < |results| ==> !Selects(results[j], f)
    decreases |results|
  {
    var n := |results| - 1;
    if Selects(results[n], f) {
      i := n;
    } else {
      var front := results[..n];
      i := LastValueIsLastSelecting(front, f);
      assert results[i] == front[i];
      forall j | i < j < |results| ensures !Selects(results[j], f) {
        if j < n {
          assert results[j] == front[j];
        }
      }
    }
  }

  /** Conversely, the last entry selecting `f` gives `LastValue` its value. */
  lemma {:induction false} LastSelectingIsLastValue(results: seq<Entry>, f: Field, i: int)
    requires 0 <= i < |results| && Selects(results[i], f)
    requires forall j :: i < j < |results| ==> !Selects(results[j], f)
    ensures LastValue(results, f) == Some(results[i].value)
    decreases |results|
  {
    var n := |results| - 1;
    if i < n {
      var front := results[..n];
      assert front[i] == results[i];
      LastSelectingIsLastValue(front, f, i);
    }
  }

  /** An entry whose label is none of the nine leaves every property as it was. */
  lemma UnknownLabelIgnored(results: seq<Entry>, e: Entry, f: Field)
    requires FieldOf(e.variable) == None
    ensures LastValue(results + [e], f) == LastValue(results, f)
  {
    assert (results + [e])[..|results|] == results;
  }

  /** An entry with property `f`'s label decides `f`, whatever came before; other properties are untouched. */
  lemma LaterEntryWins(results: seq<Entry>, f: Field, value: string, g: Field)
    ensures LastValue(results + [Entry(LabelOf(f), value)], f) == Some(value)
    ensures g != f ==> LastValue(results + [Entry(LabelOf(f), value)], g) == LastValue(results, g)
  {
    assert (results + [Entry(LabelOf(f), value)])[..|results|] == results;
  }

  /** The `forEach` of lines 38-68: each known label overwrites its own property. */
  method Extract(results: seq<Entry>) returns (data: VehicleData)
    ensures forall f :: f in data <==> LastValue(results, f).Some?
    ensures forall f :: f in data ==> data[f] == LastValue(results, f).value
  {
    data := map[];
    var i := 0;
    while i < |results|
      invariant 0 <= i <= |results|
      invariant forall f :: f in data <==> LastValue(results[..i], f).Some?
      invariant forall f :: f in data ==> data[f] == LastValue(results[..i], f).value
    {
      var e := results[i];
      var field := FieldOf(e.variable);
      if field.Some? {
        data := data[field.value := e.value];
      }
      assert results[..i + 1][..i] == results[..i];
      i := i + 1;
    }
    assert results[..i] == results;
  }

  /** The guard of lines 16-18: present and exactly 17 characters long; no character test. */
  predicate LengthOk(vin: Option<string>) {
    vin.Some? && |vin.value| == 17
  }

  /** The guards of lines 24-26 and 30-32: an OK response with a non-empty `Results`. */
  predicate ReplyUsable(reply: Reply) {
    reply.Response? && reply.ok && reply.body.results.Some? && |reply.body.results.value| > 0
  }

  /**
   * `decodeVIN`, with `reply` the outcome of the request it would make.
   * `requested` tells whether the request is made at all; every thrown
   * error is caught and gives `None`.
   */
  method DecodeVin(vin: Option<string>, reply: Reply) returns (r: Option<VehicleData>, requested: bool)
    ensures requested <==> LengthOk(vin)
    ensures r.Some? <==> LengthOk(vin) && ReplyUsable(reply)
    ensures r.Some? ==> forall f :: f in r.value <==> LastValue(reply.body.results.value, f).Some?
    ensures r.Some? ==> forall f :: f in r.value ==> r.value[f] == LastValue(reply.body.results.value, f).value
  {
    requested := false;
    if vin.None? || |vin.value| != 17 {
      return None, requested;
    }
    requested := true;
    if reply.Failure? || !reply.ok {
      return None, requested;
    }
    if reply.body.results.None? || |reply.body.results.value| == 0 {
      return None, requested;
    }
    var data := Extract(reply.body.results.value);
    r := Some(data);
  }
}
