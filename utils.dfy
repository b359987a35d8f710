/** The JSON-to-archive converter of the polymerization-reactions plugin
    (`generate_archive_from_json`). A flat record extracted by a language
    model is turned into the nested `data` section of an archive entry for a
    polymerization reaction, and the path of the archive file is derived from
    the input path.

    The specification functions below say what the entry is; the method
    `GenerateArchiveFromJson` builds it the way the source does, by
    successive insertions and a scan over `monomer1`, `monomer2`, ... */
module Utils {
  import opened Json
  import opened PyStr

  datatype Option<T> = None | Some(value: T)

  /** The unit conversion `ureg.Quantity(t, unit).to('K').magnitude`,
      supplied by the caller. `None` stands for the conversion raising (an
      unknown unit, or one that is not a temperature). */
  type Converter = (Value, Value) -> Option<Value>

  datatype Error = UnitConversionFailed(temperature: Value, unit: Value)

  datatype Result<T> = Success(value: T) | Failure(error: Error)

  /** What one call produces: the returned entry and the path it is dumped
      to. */
  datatype Generated = Generated(entry: map<string, Value>, archivePath: string)

  const MDef: string := "nomad_polymerization_reactions.schema_packages.polymerization.PolymerizationReaction"

  /** The input keys the converter reads besides the numbered monomer keys. */
  const FixedKeys: set<string> := {
    "file", "source", "r-product", "logP", "temperature", "temperature_unit",
    "solvent", "method", "polymerization_type", "determination_method"
  }

  /** The keys the `data` section may hold. */
  const DataKeys: set<string> := {
    "m_def", "data_file_name", "publication_reference", "r_product", "logP",
    "monomers", "reaction_conditions"
  }

  /** The keys the `reaction_conditions` section may hold. */
  const ConditionKeys: set<string> := {
    "temperature", "solvent", "method", "polymerization_type", "determination_method"
  }

  /** `f'monomer{i}'` */
  function MonomerKey(i: nat): string
  {
    "monomer" + NatToString(i)
  }

  /** `f'monomer{i}_s'`, the SMILES notation of the i-th monomer. */
  function SmilesKey(i: nat): string
  {
    MonomerKey(i) + "_s"
  }

  lemma MonomerKeyInjective(i: nat, j: nat)
    requires MonomerKey(i) == MonomerKey(j)
    ensures i == j
  {
    assert MonomerKey(i)[7..] == NatToString(i);
    assert MonomerKey(j)[7..] == NatToString(j);
    NatToStringInjective(i, j);
  }

  ghost function MonomerKeysUpTo(n: nat): set<string>
  {
    set j: nat | 1 <= j <= n :: MonomerKey(j)
  }

  /** The keys `monomer1` .. `monomer{n}` are `n` distinct strings. */
  lemma {:induction false} MonomerKeysCount(n: nat)
    ensures |MonomerKeysUpTo(n)| == n
    decreases n
  {
    if n > 0 {
      MonomerKeysCount(n - 1);
      assert MonomerKeysUpTo(n) == MonomerKeysUpTo(n - 1) + {MonomerKey(n)};
      if MonomerKey(n) in MonomerKeysUpTo(n - 1) {
        var j: nat :| 1 <= j <= n - 1 && MonomerKey(j) == MonomerKey(n);
        MonomerKeyInjective(j, n);
      }
    } else {
      assert MonomerKeysUpTo(0) == {};
    }
  }

  /** `monomer1` .. `monomer{i-1}` are all present. */
  ghost predicate PrefixPresent(d: map<string, Value>, i: nat)
  {
    forall j: nat :: 1 <= j < i ==> Present(d, MonomerKey(j))
  }

  /** A run of present monomer keys cannot be longer than the input. */
  lemma PrefixBound(d: map<string, Value>, i: nat)
    requires 1 <= i && PrefixPresent(d, i)
    ensures i - 1 <= |d|
  {
    var keys := MonomerKeysUpTo(i - 1);
    MonomerKeysCount(i - 1);
    forall k | k in keys
      ensures k in d.Keys
    {
      var j: nat :| 1 <= j <= i - 1 && k == MonomerKey(j);
      assert Present(d, MonomerKey(j));
    }
    SubsetCardinality(keys, d.Keys);
  }

  lemma SubsetCardinality(a: set<string>, b: set<string>)
    requires a <= b
    ensures |a| <= |b|
  {
    assert b == a + (b - a);
  }

  /** The record of the i-th monomer: its name, and its SMILES string when
      one is given. */
  function MonomerRecord(d: map<string, Value>, i: nat): Value
    requires Present(d, MonomerKey(i))
  {
    var m := map["substance_name" := d[MonomerKey(i)]];
    Obj(if Present(d, SmilesKey(i)) then m["smiles" := d[SmilesKey(i)]] else m)
  }

  /** The monomers found from index `i` on, up to the first index whose key
      is missing or `null`. */
  ghost function MonomersFrom(d: map<string, Value>, i: nat): (ms: seq<Value>)
    requires 1 <= i && PrefixPresent(d, i)
    ensures i - 1 + |ms| <= |d|
    ensures forall j :: i <= j < i + |ms| ==> Present(d, MonomerKey(j)) && ms[j - i] == MonomerRecord(d, j)
    ensures !Present(d, MonomerKey(i + |ms|))
    decreases |d| + 1 - i
  {
    PrefixBound(d, i);
    if !Present(d, MonomerKey(i)) then []
    else
      PrefixBound(d, i + 1);
      [MonomerRecord(d, i)] + MonomersFrom(d, i + 1)
  }

  /** A list holding the records of `monomer1` .. `monomer{n}`, where
      `monomer{n+1}` is missing or `null`, is the monomer list. */
  lemma MonomersAtFirstGap(d: map<string, Value>, ms: seq<Value>)
    requires forall j :: 1 <= j <= |ms| ==> Present(d, MonomerKey(j)) && ms[j - 1] == MonomerRecord(d, j)
    requires !Present(d, MonomerKey(|ms| + 1))
    ensures ms == Monomers(d)
  {
    var found := Monomers(d);
    if |found| < |ms| {
      assert false;
    } else if |ms| < |found| {
      assert false;
    } else {
      forall k | 0 <= k < |ms|
        ensures ms[k] == found[k]
      {
        assert ms[(k + 1) - 1] == MonomerRecord(d, k + 1) == found[(k + 1) - 1];
      }
    }
  }

  /** The `monomers` list: `monomer1`, `monomer2`, ... up to the first gap. */
  ghost function Monomers(d: map<string, Value>): seq<Value>
  {
    MonomersFrom(d, 1)
  }

  /** `m[outKey] = d[inKey]` when `d[inKey]` is present. */
  function Put(m: map<string, Value>, outKey: string, d: map<string, Value>, inKey: string): map<string, Value>
  {
    if Present(d, inKey) then m[outKey := d[inKey]] else m
  }

  /** The `reaction_conditions` dictionary, or the failure of the unit
      conversion. */
  function ReactionConditions(d: map<string, Value>, toKelvin: Converter): Result<map<string, Value>>
  {
    if Present(d, "temperature") && Present(d, "temperature_unit")
       && toKelvin(d["temperature"], d["temperature_unit"]).None?
    then
      Failure(UnitConversionFailed(d["temperature"], d["temperature_unit"]))
    else
      var none: map<string, Value> := map[];
      var withTemperature :=
        if !Present(d, "temperature") then none
        else if !Present(d, "temperature_unit") then none["temperature" := d["temperature"]]
        else none["temperature" := toKelvin(d["temperature"], d["temperature_unit"]).value];
      var withSolvent :=
        if Present(d, "solvent") then withTemperature["solvent" := Obj(map["name" := d["solvent"]])]
        else withTemperature;
      var withMethod := Put(withSolvent, "method", d, "method");
      var withType := Put(withMethod, "polymerization_type", d, "polymerization_type");
      Success(Put(withType, "determination_method", d, "determination_method"))
  }

  /** The `data` section, given the reaction conditions and the monomers. */
  function DataRecord(d: map<string, Value>, conditions: map<string, Value>, monomers: seq<Value>): map<string, Value>
  {
    var withDef := map["m_def" := Str(MDef)];
    var withFile := Put(withDef, "data_file_name", d, "file");
    var withSource :=
      if Present(d, "source") then withFile["publication_reference" := Obj(map["DOI_number" := d["source"]])]
      else withFile;
    var withProduct := Put(withSource, "r_product", d, "r-product");
    var withLogP := Put(withProduct, "logP", d, "logP");
    var withMonomers := if monomers != [] then withLogP["monomers" := Arr(monomers)] else withLogP;
    if conditions != map[] then withMonomers["reaction_conditions" := Obj(conditions)] else withMonomers
  }

  /** Where the archive is written: next to the input, or in the working
      directory under the input's file name; `.json` becomes
      `.archive.yaml` throughout. */
  function ArchivePath(filepath: string, sameDirAsInput: bool): string
  {
    if sameDirAsInput then ReplaceAll(filepath, ".json", ".archive.yaml")
    else ReplaceAll(LastSegment(filepath), ".json", ".archive.yaml")
  }

  /** The whole conversion: the entry `{data: ...}` and its path, or the
      failure of the unit conversion. */
  ghost function Generate(d: map<string, Value>, filepath: string, sameDirAsInput: bool, toKelvin: Converter): Result<Generated>
  {
    match ReactionConditions(d, toKelvin)
    case Failure(e) => Failure(e)
    case Success(conditions) =>
      var data := DataRecord(d, conditions, Monomers(d));
      Success(Generated(map["data" := Obj(data)], ArchivePath(filepath, sameDirAsInput)))
  }

  /** The reaction-conditions block of `generate_archive_from_json`: each
      condition is inserted when its input is present, the temperature
      converted to kelvin when a unit is given. */
  method CollectReactionConditions(d: map<string, Value>, toKelvin: Converter)
    returns (r: Result<map<string, Value>>)
    ensures r == ReactionConditions(d, toKelvin)
  {
    var reactionConditions: map<string, Value> := map[];
    if Lookup(d, "temperature") != Null {
      var temperature := d["temperature"];
      if Lookup(d, "temperature_unit") != Null {
        var kelvin := toKelvin(temperature, d["temperature_unit"]);
        if kelvin.None? {
          return Failure(UnitConversionFailed(temperature, d["temperature_unit"]));
        }
        temperature := kelvin.value;
      }
      reactionConditions := reactionConditions["temperature" := temperature];
    }
    if Lookup(d, "solvent") != Null {
      reactionConditions := reactionConditions["solvent" := Obj(map["name" := d["solvent"]])];
    }
    if Lookup(d, "method") != Null {
      reactionConditions := reactionConditions["method" := d["method"]];
    }
    if Lookup(d, "polymerization_type") != Null {
      reactionConditions := reactionConditions["polymerization_type" := d["polymerization_type"]];
    }
    if Lookup(d, "determination_method") != Null {
      reactionConditions := reactionConditions["determination_method" := d["determination_method"]];
    }
    r := Success(reactionConditions);
  }

  /** The monomer scan of `generate_archive_from_json`: `monomer1`,
      `monomer2`, ... are read until the first one that is missing or `null`. */
  method ScanMonomers(d: map<string, Value>) returns (monomers: seq<Value>)
    ensures monomers == Monomers(d)
    ensures |monomers| <= |d|
  {
    monomers := [];
    var index: nat := 1;
    while true
      invariant 1 <= index && |monomers| == index - 1
      invariant forall j :: 1 <= j < index ==> Present(d, MonomerKey(j)) && monomers[j - 1] == MonomerRecord(d, j)
      decreases |d| + 1 - index
    {
      var key := "monomer" + NatToString(index);
      if Lookup(d, key) == Null {
        break;
      }
      var monomer := map["substance_name" := d[key]];
      var smilesKey := key + "_s";
      if Lookup(d, smilesKey) != Null {
        monomer := monomer["smiles" := d[smilesKey]];
      }
      assert Obj(monomer) == MonomerRecord(d, index);
      monomers := monomers + [Obj(monomer)];
      index := index + 1;
      PrefixBound(d, index);
    }
    MonomersAtFirstGap(d, monomers);
  }

  /** The block that fills the `data` section: `m_def` first, then each
      field whose input is present, then the non-empty sub-records. */
  method BuildData(d: map<string, Value>, reactionConditions: map<string, Value>, monomers: seq<Value>)
    returns (data: map<string, Value>)
    ensures data == DataRecord(d, reactionConditions, monomers)
  {
    data := map["m_def" := Str(MDef)];
    if Lookup(d, "file") != Null {
      data := data["data_file_name" := d["file"]];
    }
    if Lookup(d, "source") != Null {
      data := data["publication_reference" := Obj(map["DOI_number" := d["source"]])];
    }
    if Lookup(d, "r-product") != Null {
      data := data["r_product" := d["r-product"]];
    }
    if Lookup(d, "logP") != Null {
      data := data["logP" := d["logP"]];
    }
    if monomers != [] {
      data := data["monomers" := Arr(monomers)];
    }
    if reactionConditions != map[] {
      data := data["reaction_conditions" := Obj(reactionConditions)];
    }
  }

  /** `generate_archive_from_json` on an already parsed input, without the
      file reading and the YAML dump. */
  method GenerateArchiveFromJson(d: map<string, Value>, filepath: string, sameDirAsInput: bool, toKelvin: Converter)
    returns (r: Result<Generated>)
    ensures r == Generate(d, filepath, sameDirAsInput, toKelvin)
  {
    var conditions := CollectReactionConditions(d, toKelvin);
    if conditions.Failure? {
      return Failure(conditions.error);
    }
    var monomers := ScanMonomers(d);
    var data := BuildData(d, conditions.value, monomers);
    var archivePath;
    if sameDirAsInput {
      archivePath := ReplaceAll(filepath, ".json", ".archive.yaml");
    } else {
      archivePath := ReplaceAll(LastSegment(filepath), ".json", ".archive.yaml");
    }
    r := Success(Generated(map["data" := Obj(data)], archivePath));
  }
}
