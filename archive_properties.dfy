/** What `generate_archive_from_json` promises about the entry it returns and
    the path it writes to, proved of the specification in `Utils`. */
module ArchiveProperties {
  import opened Json
  import opened PyStr
  import opened Utils

  // ---------------------------------------------------------------------
  // The monomer scan

  /** The number of monomers is `k` exactly when `monomer1` .. `monomer{k}`
      are present and `monomer{k+1}` is missing or `null`. */
  lemma MonomerCountIsFirstGap(d: map<string, Value>, k: nat)
    ensures |Monomers(d)| == k <==> PrefixPresent(d, k + 1) && !Present(d, MonomerKey(k + 1))
  {
  }

  /** The `monomers` list is non-empty exactly when `monomer1` is present. */
  lemma MonomersNonEmptyIff(d: map<string, Value>)
    ensures Monomers(d) != [] <==> Present(d, MonomerKey(1))
  {
  }

  /** The j-th monomer carries the name given by `monomer{j}`, and a
      `smiles` field exactly when `monomer{j}_s` is present, holding its
      value; it has no other field. */
  lemma MonomerFields(d: map<string, Value>, j: nat)
    requires 1 <= j <= |Monomers(d)|
    ensures Present(d, MonomerKey(j))
    ensures Monomers(d)[j - 1].Obj?
    ensures var f := Monomers(d)[j - 1].fields;
      && f.Keys <= {"substance_name", "smiles"}
      && "substance_name" in f && f["substance_name"] == Lookup(d, MonomerKey(j))
      && ("smiles" in f <==> Present(d, SmilesKey(j)))
      && ("smiles" in f ==> f["smiles"] == Lookup(d, SmilesKey(j)))
  {
  }

  /** Keys after the first gap are never read: an input that agrees on
      `monomer1` .. `monomer{n+1}` and `monomer1_s` .. `monomer{n}_s`, where
      `n` monomers were found, yields the same list. */
  lemma MonomersIgnoreBeyondGap(d1: map<string, Value>, d2: map<string, Value>)
    requires forall j :: 1 <= j <= |Monomers(d1)| + 1 ==> Lookup(d1, MonomerKey(j)) == Lookup(d2, MonomerKey(j))
    requires forall j :: 1 <= j <= |Monomers(d1)| ==> Lookup(d1, SmilesKey(j)) == Lookup(d2, SmilesKey(j))
    ensures Monomers(d2) == Monomers(d1)
  {
    var ms := Monomers(d1);
    forall j | 1 <= j <= |ms|
      ensures Present(d2, MonomerKey(j)) && ms[j - 1] == MonomerRecord(d2, j)
    {
      assert 1 <= j < 1 + |ms|;
    }
    MonomersAtFirstGap(d2, ms);
  }

  // ---------------------------------------------------------------------
  // Reaction conditions

  /** The conversion fails exactly when a temperature and a unit are given
      and the unit cannot be converted to kelvin. */
  lemma ConditionsFailIff(d: map<string, Value>, toKelvin: Converter)
    ensures ReactionConditions(d, toKelvin).Failure?
      <==> Present(d, "temperature") && Present(d, "temperature_unit")
           && toKelvin(Lookup(d, "temperature"), Lookup(d, "temperature_unit")).None?
  {
  }

  /** Each condition is there exactly when its input is present: the
      temperature as given or converted to kelvin when a unit is given, the
      solvent wrapped as `{name: solvent}`, the other three copied. */
  lemma ConditionFields(d: map<string, Value>, toKelvin: Converter)
    requires ReactionConditions(d, toKelvin).Success?
    ensures var c := ReactionConditions(d, toKelvin).value;
      && c.Keys <= ConditionKeys
      && ("temperature" in c <==> Present(d, "temperature"))
      && ("temperature" in c && !Present(d, "temperature_unit") ==> c["temperature"] == d["temperature"])
      && ("temperature" in c && Present(d, "temperature_unit") ==>
            toKelvin(d["temperature"], d["temperature_unit"]) == Some(c["temperature"]))
      && ("solvent" in c <==> Present(d, "solvent"))
      && ("solvent" in c ==> c["solvent"] == Obj(map["name" := d["solvent"]]))
      && ("method" in c <==> Present(d, "method"))
      && ("method" in c ==> c["method"] == d["method"])
      && ("polymerization_type" in c <==> Present(d, "polymerization_type"))
      && ("polymerization_type" in c ==> c["polymerization_type"] == d["polymerization_type"])
      && ("determination_method" in c <==> Present(d, "determination_method"))
      && ("determination_method" in c ==> c["determination_method"] == d["determination_method"])
  {
  }

  // ---------------------------------------------------------------------
  // The data section

  /** The `data` section always names the reaction schema in `m_def`; each
      other field is there exactly when its input is present, holding the
      input's value (falsy values included); `monomers` and
      `reaction_conditions` are left out when empty; nothing else appears. */
  lemma DataFields(d: map<string, Value>, conditions: map<string, Value>, monomers: seq<Value>)
    ensures var data := DataRecord(d, conditions, monomers);
      && data.Keys <= DataKeys
      && "m_def" in data && data["m_def"] == Str(MDef)
      && ("data_file_name" in data <==> Present(d, "file"))
      && ("data_file_name" in data ==> data["data_file_name"] == d["file"])
      && ("publication_reference" in data <==> Present(d, "source"))
      && ("publication_reference" in data ==> data["publication_reference"] == Obj(map["DOI_number" := d["source"]]))
      && ("r_product" in data <==> Present(d, "r-product"))
      && ("r_product" in data ==> data["r_product"] == d["r-product"])
      && ("logP" in data <==> Present(d, "logP"))
      && ("logP" in data ==> data["logP"] == d["logP"])
      && ("monomers" in data <==> monomers != [])
      && ("monomers" in data ==> data["monomers"] == Arr(monomers))
      && ("reaction_conditions" in data <==> conditions != map[])
      && ("reaction_conditions" in data ==> data["reaction_conditions"] == Obj(conditions))
  {
  }

  /** The `reaction_conditions` dictionary is empty exactly when none of
      its five inputs is present. */
  lemma ConditionsEmptyIff(d: map<string, Value>, toKelvin: Converter)
    requires ReactionConditions(d, toKelvin).Success?
    ensures ReactionConditions(d, toKelvin).value == map[]
      <==> !Present(d, "temperature") && !Present(d, "solvent") && !Present(d, "method")
           && !Present(d, "polymerization_type") && !Present(d, "determination_method")
  {
    var c := ReactionConditions(d, toKelvin).value;
    ConditionFields(d, toKelvin);
    if Present(d, "temperature") { assert "temperature" in c; }
    if Present(d, "solvent") { assert "solvent" in c; }
    if Present(d, "method") { assert "method" in c; }
    if Present(d, "polymerization_type") { assert "polymerization_type" in c; }
    if Present(d, "determination_method") { assert "determination_method" in c; }
  }

  /** A successful conversion returns exactly `{data: ...}`, the `data`
      section built from the input's reaction conditions and monomers. */
  lemma EntryShape(d: map<string, Value>, filepath: string, sameDirAsInput: bool, toKelvin: Converter)
    requires ReactionConditions(d, toKelvin).Success?
    ensures Generate(d, filepath, sameDirAsInput, toKelvin).Success?
    ensures var g := Generate(d, filepath, sameDirAsInput, toKelvin).value;
      && g.entry.Keys == {"data"}
      && g.entry["data"] == Obj(DataRecord(d, ReactionConditions(d, toKelvin).value, Monomers(d)))
      && g.archivePath == ArchivePath(filepath, sameDirAsInput)
  {
    var c := ReactionConditions(d, toKelvin).value;
    var entry := map["data" := Obj(DataRecord(d, c, Monomers(d)))];
    assert Generate(d, filepath, sameDirAsInput, toKelvin) == Success(Generated(entry, ArchivePath(filepath, sameDirAsInput)));
    assert entry.Keys == {"data"};
  }

  /** In the entry, `monomers` is there exactly when `monomer1` is present,
      and `reaction_conditions` exactly when one of its five inputs is. */
  lemma SubRecordsPresentIff(d: map<string, Value>, filepath: string, sameDirAsInput: bool, toKelvin: Converter)
    requires ReactionConditions(d, toKelvin).Success?
    ensures Generate(d, filepath, sameDirAsInput, toKelvin).Success?
    ensures var data := Generate(d, filepath, sameDirAsInput, toKelvin).value.entry["data"].fields;
      && ("monomers" in data <==> Present(d, MonomerKey(1)))
      && ("reaction_conditions" in data <==>
            Present(d, "temperature") || Present(d, "solvent") || Present(d, "method")
            || Present(d, "polymerization_type") || Present(d, "determination_method"))
  {
    EntryShape(d, filepath, sameDirAsInput, toKelvin);
    var c := ReactionConditions(d, toKelvin).value;
    DataFields(d, c, Monomers(d));
    MonomersNonEmptyIff(d);
    ConditionsEmptyIff(d, toKelvin);
  }

  /** The conversion as a whole fails exactly when the temperature unit
      cannot be converted. */
  lemma GenerateFailsIff(d: map<string, Value>, filepath: string, sameDirAsInput: bool, toKelvin: Converter)
    ensures Generate(d, filepath, sameDirAsInput, toKelvin).Failure?
      <==> Present(d, "temperature") && Present(d, "temperature_unit")
           && toKelvin(Lookup(d, "temperature"), Lookup(d, "temperature_unit")).None?
  {
  }

  /** An empty input gives an entry whose only field is `m_def`. */
  lemma EmptyInput(filepath: string, sameDirAsInput: bool, toKelvin: Converter)
    ensures Generate(map[], filepath, sameDirAsInput, toKelvin)
      == Success(Generated(map["data" := Obj(map["m_def" := Str(MDef)])], ArchivePath(filepath, sameDirAsInput)))
  {
    var none: map<string, Value> := map[];
    assert Monomers(none) == [];
    assert ReactionConditions(none, toKelvin) == Success(none);
    assert DataRecord(none, none, []) == map["m_def" := Str(MDef)];
  }

  // ---------------------------------------------------------------------
  // Which input keys matter

  /** Two inputs that read the same (missing and `null` alike) on every key
      the converter looks at: the fixed keys, and `monomer{i}` and
      `monomer{i}_s` from `i = 1` on. */
  ghost predicate AgreeOnReadKeys(d1: map<string, Value>, d2: map<string, Value>)
  {
    && (forall k :: k in FixedKeys ==> Lookup(d1, k) == Lookup(d2, k))
    && (forall i: nat :: 1 <= i ==> Lookup(d1, MonomerKey(i)) == Lookup(d2, MonomerKey(i)))
    && (forall i: nat :: 1 <= i ==> Lookup(d1, SmilesKey(i)) == Lookup(d2, SmilesKey(i)))
  }

  /** The reaction conditions depend only on their six input keys. */
  lemma ConditionsReadOnly(d1: map<string, Value>, d2: map<string, Value>, toKelvin: Converter)
    requires Lookup(d1, "temperature") == Lookup(d2, "temperature")
    requires Lookup(d1, "temperature_unit") == Lookup(d2, "temperature_unit")
    requires Lookup(d1, "solvent") == Lookup(d2, "solvent")
    requires Lookup(d1, "method") == Lookup(d2, "method")
    requires Lookup(d1, "polymerization_type") == Lookup(d2, "polymerization_type")
    requires Lookup(d1, "determination_method") == Lookup(d2, "determination_method")
    ensures ReactionConditions(d1, toKelvin) == ReactionConditions(d2, toKelvin)
  {
  }

  /** The `data` section depends on the input only through `file`,
      `source`, `r-product` and `logP`, besides the sub-records. */
  lemma DataReadOnly(d1: map<string, Value>, d2: map<string, Value>, conditions: map<string, Value>, monomers: seq<Value>)
    requires Lookup(d1, "file") == Lookup(d2, "file")
    requires Lookup(d1, "source") == Lookup(d2, "source")
    requires Lookup(d1, "r-product") == Lookup(d2, "r-product")
    requires Lookup(d1, "logP") == Lookup(d2, "logP")
    ensures DataRecord(d1, conditions, monomers) == DataRecord(d2, conditions, monomers)
  {
  }

  /** Only the recognised keys influence the result. */
  lemma OnlyReadKeysMatter(d1: map<string, Value>, d2: map<string, Value>, filepath: string, sameDirAsInput: bool, toKelvin: Converter)
    requires AgreeOnReadKeys(d1, d2)
    ensures Generate(d1, filepath, sameDirAsInput, toKelvin) == Generate(d2, filepath, sameDirAsInput, toKelvin)
  {
    MonomersIgnoreBeyondGap(d1, d2);
    assert "temperature" in FixedKeys && "temperature_unit" in FixedKeys && "solvent" in FixedKeys;
    assert "method" in FixedKeys && "polymerization_type" in FixedKeys && "determination_method" in FixedKeys;
    ConditionsReadOnly(d1, d2, toKelvin);
    assert "file" in FixedKeys && "source" in FixedKeys && "r-product" in FixedKeys && "logP" in FixedKeys;
    match ReactionConditions(d1, toKelvin)
    case Failure(_) =>
    case Success(c) =>
      DataReadOnly(d1, d2, c, Monomers(d1));
  }

  /** A key set to `null` reads exactly like a missing key. */
  lemma NullSameAsMissing(d: map<string, Value>, k: string, filepath: string, sameDirAsInput: bool, toKelvin: Converter)
    ensures Generate(d[k := Null], filepath, sameDirAsInput, toKelvin) == Generate(d - {k}, filepath, sameDirAsInput, toKelvin)
  {
    OnlyReadKeysMatter(d[k := Null], d - {k}, filepath, sameDirAsInput, toKelvin);
  }

  /** Adding or changing a key the converter does not read leaves the result
      as it was. */
  lemma UnreadKeyIgnored(d: map<string, Value>, k: string, v: Value, filepath: string, sameDirAsInput: bool, toKelvin: Converter)
    requires k !in FixedKeys
    requires forall i: nat :: 1 <= i ==> k != MonomerKey(i) && k != SmilesKey(i)
    ensures Generate(d[k := v], filepath, sameDirAsInput, toKelvin) == Generate(d, filepath, sameDirAsInput, toKelvin)
  {
    OnlyReadKeysMatter(d[k := v], d, filepath, sameDirAsInput, toKelvin);
  }

  /** The scan starts at `monomer1`: `monomer0` and `monomer0_s` are never
      read. */
  lemma Monomer0Ignored(d: map<string, Value>, k: string, v: Value, filepath: string, sameDirAsInput: bool, toKelvin: Converter)
    requires k == MonomerKey(0) || k == SmilesKey(0)
    ensures Generate(d[k := v], filepath, sameDirAsInput, toKelvin) == Generate(d, filepath, sameDirAsInput, toKelvin)
  {
    assert |k| >= 8 && k[..8] == MonomerKey(0) && k[0] == 'm';
    assert k !in FixedKeys;
    forall i: nat | 1 <= i
      ensures k != MonomerKey(i) && k != SmilesKey(i)
    {
      var m := MonomerKey(i);
      assert |m| >= 8 && m[..7] == k[..7];
      assert m[7..] == NatToString(i) && m[7] != '0';
    }
    UnreadKeyIgnored(d, k, v, filepath, sameDirAsInput, toKelvin);
  }

  /** A key that does not start with `m` is neither a monomer key nor a
      SMILES key. */
  lemma NotMonomerKey(k: string)
    requires k != [] && k[0] != 'm'
    ensures forall i: nat :: k != MonomerKey(i) && k != SmilesKey(i)
  {
  }

  /** The fields `r_values` and `conf_intervals` of the extraction output
      play no part in the entry. */
  lemma RValuesIgnored(d: map<string, Value>, rValues: Value, confIntervals: Value, filepath: string, sameDirAsInput: bool, toKelvin: Converter)
    ensures Generate(d["r_values" := rValues]["conf_intervals" := confIntervals], filepath, sameDirAsInput, toKelvin)
         == Generate(d, filepath, sameDirAsInput, toKelvin)
  {
    var rv, ci := "r_values", "conf_intervals";
    assert rv !in FixedKeys && ci !in FixedKeys;
    NotMonomerKey(rv);
    NotMonomerKey(ci);
    UnreadKeyIgnored(d[rv := rValues], ci, confIntervals, filepath, sameDirAsInput, toKelvin);
    UnreadKeyIgnored(d, rv, rValues, filepath, sameDirAsInput, toKelvin);
  }

  // ---------------------------------------------------------------------
  // The archive path

  /** Next to the input, the archive path equals the input path (so the
      input would be overwritten) exactly when the path holds no `.json`. */
  lemma SameDirPathIsInputIff(filepath: string)
    ensures ArchivePath(filepath, true) == filepath <==> !Occurs(filepath, ".json")
  {
    ReplaceAllUnchanged(filepath, ".json", ".archive.yaml");
  }

  /** In the working directory, the archive path is a bare file name: the
      input's last segment with `.json` replaced. */
  lemma OwnDirPathIsFileName(filepath: string)
    ensures ArchivePath(filepath, false) == ArchivePath(LastSegment(filepath), true)
    ensures '/' !in ArchivePath(filepath, false)
  {
  }

  /** No `.json` is left in the archive path: `replace` rewrites every
      occurrence, and `.archive.yaml` cannot form a new one. */
  lemma ArchivePathHasNoJson(filepath: string, sameDirAsInput: bool)
    ensures !Occurs(ArchivePath(filepath, sameDirAsInput), ".json")
  {
    JsonSuffixCannotRecreate(".json", ".archive.yaml");
    ReplaceAllLeavesNoOccurrence(filepath, ".json", ".archive.yaml");
    ReplaceAllLeavesNoOccurrence(LastSegment(filepath), ".json", ".archive.yaml");
  }

  lemma JsonSuffixCannotRecreate(pat: string, rep: string)
    requires pat == ".json" && rep == ".archive.yaml"
    ensures CannotRecreate(pat, rep)
  {
  }

  /** Next to the input, a `.json` in a directory name is rewritten along
      with the one in the file name. */
  lemma SameDirRewritesDirectory(dir: string, stem: string)
    requires '.' !in dir && '.' !in stem
    ensures ArchivePath(dir + ".json/" + stem + ".json", true) == dir + ".archive.yaml/" + stem + ".archive.yaml"
  {
    var pat, rep := ".json", ".archive.yaml";
    var name := "/" + stem;
    assert '.' !in name;
    assert dir + ".json/" + stem + ".json" == dir + pat + (name + pat);
    ReplaceAllAtOccurrence(dir, name + pat, pat, rep);
    assert name + pat == name + pat + [];
    ReplaceAllAtOccurrence(name, [], pat, rep);
    assert dir + rep + (name + rep + []) == dir + ".archive.yaml/" + stem + ".archive.yaml";
  }

  /** A file name with no dot and a `.json` extension becomes the same name
      with `.archive.yaml`, wherever the input lies. */
  lemma ArchiveFileName(dir: string, stem: string)
    requires '/' !in stem && '.' !in stem
    ensures ArchivePath(dir + "/" + stem + ".json", false) == stem + ".archive.yaml"
  {
    assert dir + "/" + stem + ".json" == dir + "/" + (stem + ".json");
    LastSegmentAfterSlash(dir, stem + ".json");
    ReplaceAllSkipsPrefix(stem, ".json", ".json", ".archive.yaml");
    ReplaceAllOfPattern(".json", ".archive.yaml");
  }

  /** The input path of the unit test, taken apart. */
  lemma TestPathParts(filepath: string)
    requires filepath == "tests/data/processed_reactions/paper_0_reaction_1.json"
    ensures filepath == "tests/data/processed_reactions" + "/" + "paper_0_reaction_1" + ".json"
  {
  }

  /** The file the unit test removes after converting
      `tests/data/processed_reactions/paper_0_reaction_1.json`. */
  lemma TestArchivePath(filepath: string)
    requires filepath == "tests/data/processed_reactions/paper_0_reaction_1.json"
    ensures ArchivePath(filepath, false) == "paper_0_reaction_1.archive.yaml"
  {
    TestPathParts(filepath);
    ArchiveFileName("tests/data/processed_reactions", "paper_0_reaction_1");
    TestFileName("paper_0_reaction_1");
  }

  lemma TestFileName(stem: string)
    requires stem == "paper_0_reaction_1"
    ensures stem + ".archive.yaml" == "paper_0_reaction_1.archive.yaml"
  {
  }

  // ---------------------------------------------------------------------
  // The example in the converter's documentation

  /** The extraction output shown in the documentation of the converter. */
  function DocInput(): map<string, Value>
  {
    map[
      "file" := Str("paper_0.json"),
      "monomer1_s" := Str("C=C"),
      "monomer2_s" := Str("C=O"),
      "monomer1" := Str("ethylene"),
      "monomer2" := Str("carbon monoxide"),
      "r_values" := Obj(map["constant_1" := Float(22.0), "constant_2" := Float(0.0)]),
      "conf_intervals" := Obj(map["constant_conf_1" := Null, "constant_conf_2" := Null]),
      "temperature" := Float(20.0),
      "temperature_unit" := Str("\U{00B0}C"),
      "solvent" := Null,
      "method" := Str("bulk"),
      "r-product" := Null,
      "source" := Str("https://doi.org/10.1002/pol.1963.110010415")
    ]
  }

  /** The first three monomer keys, spelled out. */
  lemma FirstMonomerKeys()
    ensures MonomerKey(1) == "monomer1" && SmilesKey(1) == "monomer1_s"
    ensures MonomerKey(2) == "monomer2" && SmilesKey(2) == "monomer2_s"
    ensures MonomerKey(3) == "monomer3"
  {
  }

  /** What the converter reads from the documented example. */
  lemma DocLookups(d: map<string, Value>)
    requires d == DocInput()
    ensures DocReads(d)
  {
    DocTopLevelReads(d);
    DocConditionReads(d);
    DocMonomerReads(d);
  }

  lemma DocTopLevelReads(d: map<string, Value>)
    requires d == DocInput()
    ensures Lookup(d, "file") == Str("paper_0.json")
    ensures Lookup(d, "source") == Str("https://doi.org/10.1002/pol.1963.110010415")
    ensures !Present(d, "r-product") && !Present(d, "logP")
  {
  }

  lemma DocConditionReads(d: map<string, Value>)
    requires d == DocInput()
    ensures Lookup(d, "temperature") == Float(20.0)
    ensures Lookup(d, "temperature_unit") == Str("\U{00B0}C")
    ensures !Present(d, "solvent")
    ensures Lookup(d, "method") == Str("bulk")
    ensures !Present(d, "polymerization_type") && !Present(d, "determination_method")
  {
  }

  lemma DocMonomerReads(d: map<string, Value>)
    requires d == DocInput()
    ensures Lookup(d, "monomer1") == Str("ethylene") && Lookup(d, "monomer1_s") == Str("C=C")
    ensures Lookup(d, "monomer2") == Str("carbon monoxide") && Lookup(d, "monomer2_s") == Str("C=O")
    ensures !Present(d, "monomer3")
  {
  }

  /** The values the documented example holds under the keys the converter
      reads. */
  ghost predicate DocReads(d: map<string, Value>)
  {
    && Lookup(d, "file") == Str("paper_0.json")
    && Lookup(d, "source") == Str("https://doi.org/10.1002/pol.1963.110010415")
    && !Present(d, "r-product") && !Present(d, "logP")
    && Lookup(d, "temperature") == Float(20.0)
    && Lookup(d, "temperature_unit") == Str("\U{00B0}C")
    && !Present(d, "solvent")
    && Lookup(d, "method") == Str("bulk")
    && !Present(d, "polymerization_type") && !Present(d, "determination_method")
    && Lookup(d, "monomer1") == Str("ethylene") && Lookup(d, "monomer1_s") == Str("C=C")
    && Lookup(d, "monomer2") == Str("carbon monoxide") && Lookup(d, "monomer2_s") == Str("C=O")
    && !Present(d, "monomer3")
  }

  /** The documented entry. */
  function DocEntry(kelvin: Value): map<string, Value>
  {
    map["data" := Obj(map[
      "m_def" := Str(MDef),
      "data_file_name" := Str("paper_0.json"),
      "publication_reference" := Obj(map["DOI_number" := Str("https://doi.org/10.1002/pol.1963.110010415")]),
      "monomers" := Arr(DocMonomerList()),
      "reaction_conditions" := Obj(map["temperature" := kelvin, "method" := Str("bulk")])
    ])]
  }

  function DocMonomerList(): seq<Value>
  {
    [
      Obj(map["substance_name" := Str("ethylene"), "smiles" := Str("C=C")]),
      Obj(map["substance_name" := Str("carbon monoxide"), "smiles" := Str("C=O")])
    ]
  }

  /** An input reading like the documented example has its two monomers. */
  lemma DocMonomers(d: map<string, Value>)
    requires DocReads(d)
    ensures Monomers(d) == DocMonomerList()
  {
    FirstMonomerKeys();
    var ms := DocMonomerList();
    assert ms[0] == MonomerRecord(d, 1);
    assert ms[1] == MonomerRecord(d, 2);
    MonomersAtFirstGap(d, ms);
  }

  /** An input reading like the documented example has the temperature in
      kelvin and the method as its conditions. */
  lemma DocConditions(d: map<string, Value>, toKelvin: Converter, kelvin: Value)
    requires DocReads(d)
    requires toKelvin(Float(20.0), Str("\U{00B0}C")) == Some(kelvin)
    ensures ReactionConditions(d, toKelvin) == Success(map["temperature" := kelvin, "method" := Str("bulk")])
  {
  }

  /** Any input reading like the documented example converts to the
      documented entry. */
  lemma DocEntryFromReads(d: map<string, Value>, filepath: string, sameDirAsInput: bool, toKelvin: Converter, kelvin: Value)
    requires DocReads(d)
    requires toKelvin(Float(20.0), Str("\U{00B0}C")) == Some(kelvin)
    ensures Generate(d, filepath, sameDirAsInput, toKelvin)
         == Success(Generated(DocEntry(kelvin), ArchivePath(filepath, sameDirAsInput)))
  {
    DocMonomers(d);
    DocConditions(d, toKelvin, kelvin);
    var c := map["temperature" := kelvin, "method" := Str("bulk")];
    var data := DataRecord(d, c, Monomers(d));
    DataFields(d, c, Monomers(d));
    assert "method" in c;
    var expected := DocEntry(kelvin)["data"].fields;
    assert data.Keys == expected.Keys;
    assert data == expected;
  }

  /** Converting the documented example: two monomers with their SMILES,
      the temperature in kelvin, the method, the DOI and the file name; the
      `null` solvent and product and the rate constants are left out. */
  lemma DocExample(d: map<string, Value>, filepath: string, sameDirAsInput: bool, toKelvin: Converter, kelvin: Value)
    requires d == DocInput()
    requires toKelvin(Float(20.0), Str("\U{00B0}C")) == Some(kelvin)
    ensures Generate(d, filepath, sameDirAsInput, toKelvin)
         == Success(Generated(DocEntry(kelvin), ArchivePath(filepath, sameDirAsInput)))
  {
    DocLookups(d);
    DocEntryFromReads(d, filepath, sameDirAsInput, toKelvin, kelvin);
  }
}
