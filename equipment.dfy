/**
 * The equipment panel encoder of /equipment-report and /update-equipment-report: `transformArray`
 * zips each submitted list positionally against a fixed table of location names and turns `"on"`
 * into `true`; the six panels together form the record that replaces `equipmentInspection`.
 */
module Equipment {

  /** A value of a transformed item: a submitted string, a boolean, or `undefined`. */
  datatype Value = Str(s: string) | Bool(b: bool) | Undefined

  /** One submitted item, the object the body parser builds from `panel[i][field]=value` keys. */
  type Item = map<string, string>

  /** What the body holds for a panel: an array of items, or anything else (absent, a string, an object). */
  datatype RawPanel = NotArray | Items(items: seq<Item>)

  /** A checkbox sends `"on"` when ticked; every other value passes through. */
  function Normalize(v: string): (r: Value)
    ensures r == Bool(true) <==> v == "on"
    ensures v != "on" ==> r == Str(v)
  {
    if v == "on" then Bool(true) else Str(v)
  }

  /** `keys[index]`, which is `undefined` past the end of the table. */
  function LocationAt(keys: seq<string>, index: nat): (r: Value)
    ensures r.Undefined? <==> index >= |keys|
    ensures r != Undefined ==> r == Str(keys[index]) && r.s in keys
  {
    if index < |keys| then Str(keys[index]) else Undefined
  }

  /** `let obj = { location: keys[index] }` followed by `obj[key] = item[key] === "on" ? true : item[key]`. */
  function TransformItem(item: Item, keys: seq<string>, index: nat): (r: map<string, Value>)
    ensures r.Keys == item.Keys + {"location"}
    ensures r["location"] == if "location" in item then Normalize(item["location"]) else LocationAt(keys, index)
    ensures forall k :: k in item ==> r[k] == Normalize(item[k])
  {
    map["location" := LocationAt(keys, index)] + map k | k in item :: Normalize(item[k])
  }

  /**
   * `transformArray(data, keys)`: [] for a non-array; otherwise one object per submitted item, in
   * order, holding the item's fields (a ticked checkbox as `true`) and a `location` that is the
   * item's own when it sent one and the table's entry at the same position otherwise (undefined past
   * the table's end: the submission is not clamped to the table).
   */
  function TransformArray(data: RawPanel, keys: seq<string>): (r: seq<map<string, Value>>)
    ensures data.NotArray? ==> r == []
    ensures data.Items? ==> |r| == |data.items|
    ensures data.Items? ==> forall i :: 0 <= i < |r| ==>
      && r[i].Keys == data.items[i].Keys + {"location"}
      && r[i]["location"] == (if "location" in data.items[i] then Normalize(data.items[i]["location"])
                              else if i < |keys| then Str(keys[i]) else Undefined)
      && (forall k :: k in data.items[i] ==>
            r[i][k] == if data.items[i][k] == "on" then Bool(true) else Str(data.items[i][k]))
  {
    match data
    case NotArray => []
    case Items(items) => seq(|items|, i requires 0 <= i < |items| => TransformItem(items[i], keys, i))
  }

  /** No transformed value is `false`: an unticked checkbox is simply not sent. */
  lemma TransformNeverFalse(data: RawPanel, keys: seq<string>)
    ensures forall i, k :: 0 <= i < |TransformArray(data, keys)| && k in TransformArray(data, keys)[i] ==>
      TransformArray(data, keys)[i][k] != Bool(false)
  {
  }

  // The fixed location tables (kitchen/living room, family bathroom, bedroom 1 (master), ...).
  const RadonLocations: seq<string> := ["주방/거실", "가족욕실", "침실1(안방)"]
  const FormaldehydeLocations: seq<string> := ["주방/거실", "가족욕실", "침실1(안방)"]
  const ThermalCameraLocations: seq<string> := ["주방", "거실", "침실1(안방)", "침실2", "침실3", "드레스룸"]
  const PipeLocations: seq<string> := ["가족욕실", "부부욕실", "발코니", "다용도실"]
  const FloorLocations: seq<string> := ["거실", "침실1", "침실2", "침실3"]
  const DrainLocations: seq<string> := ["가족욕실", "부부욕실", "발코니", "다용도실"]

  /** /equipment-report stamps the record `createdAt`, /update-equipment-report stamps it `updatedAt`. */
  datatype Stamp = CreatedAt(t: int) | UpdatedAt(t: int)

  /** The six body keys: radon, formaldehyde, equipment (thermal camera), pipeInspection, floor_level, drain_check. */
  datatype Submission = Submission(
    radon: RawPanel, formaldehyde: RawPanel, equipment: RawPanel,
    pipeInspection: RawPanel, floorLevel: RawPanel, drainCheck: RawPanel)

  datatype Record = Record(
    radon: seq<map<string, Value>>,
    formaldehyde: seq<map<string, Value>>,
    thermalCamera: seq<map<string, Value>>,
    pipeInspection: seq<map<string, Value>>,
    floorLevel: seq<map<string, Value>>,
    drainInspection: seq<map<string, Value>>,
    stamp: Stamp)

  function Count(p: RawPanel): nat {
    if p.Items? then |p.items| else 0
  }

  /**
   * The `equipmentData` object: every panel encoded against its own table. The record always has all six panels, each as long as its submission (a missing panel is
   * []); the thermal-camera panel comes from the `equipment` key.
   */
  function Encode(sub: Submission, stamp: Stamp): (r: Record)
    ensures |r.radon| == Count(sub.radon) && |r.formaldehyde| == Count(sub.formaldehyde)
    ensures |r.thermalCamera| == Count(sub.equipment) && |r.pipeInspection| == Count(sub.pipeInspection)
    ensures |r.floorLevel| == Count(sub.floorLevel) && |r.drainInspection| == Count(sub.drainCheck)
    ensures r.stamp == stamp
    ensures forall i :: 0 <= i < |r.thermalCamera| ==>
      r.thermalCamera[i] == TransformItem(sub.equipment.items[i], ThermalCameraLocations, i)
    ensures forall i :: 0 <= i < |r.radon| ==> r.radon[i] == TransformItem(sub.radon.items[i], RadonLocations, i)
    ensures forall i :: 0 <= i < |r.formaldehyde| ==>
      r.formaldehyde[i] == TransformItem(sub.formaldehyde.items[i], FormaldehydeLocations, i)
    ensures forall i :: 0 <= i < |r.pipeInspection| ==>
      r.pipeInspection[i] == TransformItem(sub.pipeInspection.items[i], PipeLocations, i)
    ensures forall i :: 0 <= i < |r.floorLevel| ==>
      r.floorLevel[i] == TransformItem(sub.floorLevel.items[i], FloorLocations, i)
    ensures forall i :: 0 <= i < |r.drainInspection| ==>
      r.drainInspection[i] == TransformItem(sub.drainCheck.items[i], DrainLocations, i)
  {
    Record(
      TransformArray(sub.radon, RadonLocations),
      TransformArray(sub.formaldehyde, FormaldehydeLocations),
      TransformArray(sub.equipment, ThermalCameraLocations),
      TransformArray(sub.pipeInspection, PipeLocations),
      TransformArray(sub.floorLevel, FloorLocations),
      TransformArray(sub.drainCheck, DrainLocations),
      stamp)
  }

  /** A fourth radon item has no table entry: its location is undefined, it is not dropped. */
  lemma RadonNotClamped(a: Item, b: Item, c: Item, d: Item, stamp: Stamp)
    requires "location" !in d
    ensures var r := Encode(Submission(Items([a, b, c, d]), NotArray, NotArray, NotArray, NotArray, NotArray), stamp);
      |r.radon| == 4 && r.radon[3]["location"] == Undefined && r.formaldehyde == []
  {
  }
}
