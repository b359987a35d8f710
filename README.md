# Polymerization-reaction archive converter, in Dafny

This project models the one piece of logic in the `nomad_polymerization_reactions`
plugin: `generate_archive_from_json`. The function takes the flat JSON record that
a language-model extraction pipeline writes for one polymerization reaction. It
turns that record into the nested `data` section of an archive entry:

- `m_def`, which names the `PolymerizationReaction` schema;
- the file name and the DOI reference;
- the `r_product` and `logP` values;
- the list of monomers (`monomer1`, `monomer2`, … with their SMILES strings);
- the reaction conditions (temperature in kelvin, solvent, method,
  polymerization type, determination method).

It also derives the path of the `.archive.yaml` file it writes.

Modules:

- `Json` (`json.dfy`): the parsed JSON values, and the lookup `d.get(k, None)`.
  A missing key and an explicit `null` read the same.
- `PyStr` (`pystr.dfy`): the Python string operations the converter uses.
  These are `f'{n}'` on a non-negative int (`NatToString`), `str.replace`
  (`ReplaceAll`) and `str.split('/')[-1]` (`LastSegment`). Each comes with the
  lemmas that characterise it.
- `Utils` (`utils.dfy`): the converter itself.
  - Specification functions say what the entry is: `ReactionConditions`,
    `Monomers` (through `MonomersFrom`), `DataRecord`, `ArchivePath` and
    `Generate`.
  - The imperative methods build it the way the source does.
    `CollectReactionConditions` and `BuildData` make successive dictionary
    insertions. `ScanMonomers` is the `while True` loop over `monomer{index}`.
    `GenerateArchiveFromJson` puts the blocks together.
  - Each method is proved equal to its specification function.
- `ArchiveProperties` (`archive_properties.dfy`): what the converter promises,
  proved about the specification. This covers:
  - the first-gap monomer scan and its bound;
  - which output fields appear and what they hold;
  - the error case;
  - that only the recognised keys matter;
  - the archive path;
  - the worked example in the function's documentation.

The unit conversion `ureg.Quantity(t, unit).to('K').magnitude` is a parameter
`toKelvin: (Value, Value) -> Option<Value>`. `None` stands for pint raising on
a unit it does not know or cannot convert to kelvin. The exception then
propagates out of the converter. The model returns
`Failure(UnitConversionFailed(t, unit))` in that case.

The converter writes the file name to `data_file_name`, the field that the
`PolymerizationReaction` schema in `schema_packages/polymerization.py` defines.
The older `schema_packages/mypackage.py` calls that field `extracted_json_data`.

Two behaviours of the path derivation are stated as lemmas:

- `str.replace` rewrites every `.json` in the path, directory names included.
  No `.json` is left in the archive path (`ArchivePathHasNoJson`), and a
  `.json` directory is rewritten along with the file name
  (`SameDirRewritesDirectory`).
- With `same_dir_as_input`, the archive path equals the input path exactly when
  the path holds no `.json`. In that case the dump would overwrite the input
  file (`SameDirPathIsInputIff`).

## Model

| member | source | states |
|---|---|---|
| `Json.Lookup` | src/nomad_polymerization_reactions/utils.py:64-107 | `d.get(k, None)`: a missing key reads as `null`, and a non-`null` result is the stored value. Every presence test below is `Json.Present`, `Lookup` not `null`; its meaning for the converter is stated in `NullSameAsMissing` and `DataFields` |
| `Json.Present` | src/nomad_polymerization_reactions/utils.py:64-107 | The definition of `d.get(k, None) is not None`, so falsy values count as present. Its meaning for the converter is in `DataFields`, `ConditionFields` and `NullSameAsMissing` |
| `Utils.MonomerKey` | src/nomad_polymerization_reactions/utils.py:85 | The definition of `f'monomer{i}'`. Its meaning is in `MonomerKeyInjective`, `FirstMonomerKeys` and `NotMonomerKey` |
| `Utils.SmilesKey` | src/nomad_polymerization_reactions/utils.py:90 | The definition of `f'monomer{i}_s'`. Its meaning is in `FirstMonomerKeys`, `NotMonomerKey` and `Monomer0Ignored` |
| `Utils.MonomerRecord` | src/nomad_polymerization_reactions/utils.py:88-91 | The definition of one monomer dictionary. Its meaning is in `MonomerFields` |
| `Utils.Monomers` | src/nomad_polymerization_reactions/utils.py:82-93 | The definition of the monomer list, the scan from `monomer1`. Its meaning is in `MonomerCountIsFirstGap`, `MonomersNonEmptyIff`, `MonomerFields` and `MonomersIgnoreBeyondGap` |
| `Utils.ReactionConditions` | src/nomad_polymerization_reactions/utils.py:63-80 | The definition of the conditions block. Its meaning is in `ConditionsFailIff`, `ConditionFields`, `ConditionsEmptyIff` and `ConditionsReadOnly` |
| `Utils.DataRecord` | src/nomad_polymerization_reactions/utils.py:95-111 | The definition of the `data` section. Its meaning is in `DataFields` and `DataReadOnly` |
| `Utils.ArchivePath` | src/nomad_polymerization_reactions/utils.py:115-118 | The definition of the archive path. Its meaning is in `ArchivePathHasNoJson`, `SameDirPathIsInputIff`, `SameDirRewritesDirectory`, `OwnDirPathIsFileName` and `ArchiveFileName` |
| `Utils.Generate` | src/nomad_polymerization_reactions/utils.py:61-122 | The definition of the whole conversion. Its meaning is in `EntryShape`, `GenerateFailsIff`, `SubRecordsPresentIff`, `OnlyReadKeysMatter`, `NullSameAsMissing` and `DocExample` |
| `Utils.GenerateArchiveFromJson` | src/nomad_polymerization_reactions/utils.py:61-122 | The result is the specified conversion `Generate`: the unit-conversion failure, or the entry `{data: …}` together with the archive path |
| `Utils.CollectReactionConditions` | src/nomad_polymerization_reactions/utils.py:63-80 | The successive insertions build exactly `ReactionConditions`, and the method returns early with the failure when the temperature unit cannot be converted |
| `Utils.ScanMonomers` | src/nomad_polymerization_reactions/utils.py:82-93 | The `while True` scan ends. It returns exactly the monomer list up to the first missing or `null` `monomer{k}`. It emits at most as many monomers as the input has keys |
| `Utils.BuildData` | src/nomad_polymerization_reactions/utils.py:95-111 | The insertions into the ordered `data` dictionary build exactly `DataRecord` |
| `Utils.MonomersFrom` | src/nomad_polymerization_reactions/utils.py:84-93 | Scanning from index `i`: entry `j - i` is the record of `monomer{j}`, and that key is present. The key right after the last entry is missing or `null`. The count is bounded by the size of the input |
| `Utils.MonomersAtFirstGap` | src/nomad_polymerization_reactions/utils.py:84-93 | The first-gap description has one solution. A list of the records of `monomer1..n` with `monomer{n+1}` absent is the monomer list |
| `Utils.PrefixBound` | src/nomad_polymerization_reactions/utils.py:83-93 | A run of present keys `monomer1..i-1` cannot outnumber the input's keys, so the scan terminates |
| `Utils.MonomerKeysCount` | src/nomad_polymerization_reactions/utils.py:85 | The keys `monomer1` … `monomer{n}` are `n` distinct strings |
| `Utils.MonomerKeyInjective` | src/nomad_polymerization_reactions/utils.py:85 | Distinct indices give distinct `monomer{i}` keys |
| `PyStr.NatToString` | src/nomad_polymerization_reactions/utils.py:85 | `f'{n}'` is a non-empty string of decimal digits. It starts with `0` only for `0`. It has one digit exactly for `n < 10` |
| `PyStr.ParseNatToString` | src/nomad_polymerization_reactions/utils.py:85 | Reading the decimal string back gives `n` |
| `PyStr.NatToStringInjective` | src/nomad_polymerization_reactions/utils.py:85 | Distinct numbers format to distinct strings |
| `PyStr.ReplaceAll` | src/nomad_polymerization_reactions/utils.py:116 | Every character of the result comes from the input or from the replacement. The result is not shorter when the replacement is at least as long as the pattern |
| `PyStr.ReplaceAllUnchanged` | src/nomad_polymerization_reactions/utils.py:116 | With a longer replacement, `replace` leaves the string unchanged exactly when the pattern does not occur in it |
| `PyStr.ReplaceAllSkipsPrefix` | src/nomad_polymerization_reactions/utils.py:116 | A prefix without the pattern's first character passes through `replace` unchanged |
| `PyStr.ReplaceAllOfPattern` | src/nomad_polymerization_reactions/utils.py:116 | Replacing in the pattern itself yields the replacement |
| `PyStr.ReplaceAllAtOccurrence` | src/nomad_polymerization_reactions/utils.py:116 | The first occurrence, found after a prefix without the pattern's first character, is replaced, and the scan resumes right after it |
| `PyStr.ReplaceAllPrefixFromInput` | src/nomad_polymerization_reactions/utils.py:116 | A prefix of the result without the pattern's first character was copied unchanged from the input, when the replacement starts with that character |
| `PyStr.ReplaceAllLeavesNoOccurrence` | src/nomad_polymerization_reactions/utils.py:116 | No occurrence of the pattern is left in the result, when the replacement cannot hold the pattern or form one with its neighbours. A replace of the first occurrence only does not meet this |
| `PyStr.LastSegment` | src/nomad_polymerization_reactions/utils.py:118 | `split('/')[-1]` is the suffix that holds no `/` and is either the whole string or preceded by a `/` |
| `PyStr.LastSegmentAfterSlash` | src/nomad_polymerization_reactions/utils.py:118 | The last segment of `dir/name` is `name` when `name` holds no `/` |
| `ArchiveProperties.MonomerCountIsFirstGap` | src/nomad_polymerization_reactions/utils.py:84-93 | Exactly `k` monomers are emitted if and only if `monomer1..k` are present and `monomer{k+1}` is missing or `null` |
| `ArchiveProperties.MonomersNonEmptyIff` | src/nomad_polymerization_reactions/utils.py:84-86 | The monomer list is non-empty if and only if `monomer1` is present |
| `ArchiveProperties.MonomerFields` | src/nomad_polymerization_reactions/utils.py:88-92 | The j-th monomer has `substance_name = monomer{j}`. It has a `smiles` field if and only if `monomer{j}_s` is present, and then the field holds that value. It has no other field |
| `ArchiveProperties.MonomersIgnoreBeyondGap` | src/nomad_polymerization_reactions/utils.py:84-93 | Keys after the first gap are never read. Inputs that agree up to the gap give the same monomer list |
| `ArchiveProperties.ConditionsFailIff` | src/nomad_polymerization_reactions/utils.py:64-71 | Building the conditions fails if and only if a temperature and a unit are present and the unit cannot be converted |
| `ArchiveProperties.ConditionFields` | src/nomad_polymerization_reactions/utils.py:63-80 | The five condition fields follow their inputs. Temperature is present if and only if the input temperature is; it is unchanged without a unit and the converted value with one. Solvent is wrapped as `{name: solvent}`. The other three are copied. No other field appears |
| `ArchiveProperties.ConditionsEmptyIff` | src/nomad_polymerization_reactions/utils.py:63-80 | The conditions dictionary is empty if and only if none of its five inputs is present |
| `ArchiveProperties.DataFields` | src/nomad_polymerization_reactions/utils.py:95-111 | `m_def` is always the schema name. `data_file_name`, `publication_reference = {DOI_number: source}`, `r_product` and `logP` are each present if and only if their input is, and falsy values are copied too. `monomers` and `reaction_conditions` are present if and only if non-empty. No other key appears |
| `ArchiveProperties.EntryShape` | src/nomad_polymerization_reactions/utils.py:113-122 | A successful conversion returns exactly `{data: <record>}`, with the path from `ArchivePath` |
| `ArchiveProperties.SubRecordsPresentIff` | src/nomad_polymerization_reactions/utils.py:82-111 | In the entry, `monomers` is present if and only if `monomer1` is. `reaction_conditions` is present if and only if one of its five inputs is |
| `ArchiveProperties.GenerateFailsIff` | src/nomad_polymerization_reactions/utils.py:64-72 | The whole conversion fails if and only if the temperature unit cannot be converted |
| `ArchiveProperties.EmptyInput` | tests/test_utils.py:23-33 | An empty input gives an entry whose only field is `m_def` |
| `ArchiveProperties.ConditionsReadOnly` | src/nomad_polymerization_reactions/utils.py:63-80 | The conditions depend on the input only through their six keys |
| `ArchiveProperties.DataReadOnly` | src/nomad_polymerization_reactions/utils.py:98-107 | The top-level fields depend on the input only through `file`, `source`, `r-product` and `logP` |
| `ArchiveProperties.OnlyReadKeysMatter` | src/nomad_polymerization_reactions/utils.py:61-113 | Two inputs that agree on the recognised keys give the same result. The recognised keys are the ten fixed keys and every `monomer{i}` and `monomer{i}_s` from `i = 1` on, with missing and `null` alike |
| `ArchiveProperties.NullSameAsMissing` | src/nomad_polymerization_reactions/utils.py:64-107 | Setting a key to `null` has the same effect as removing it |
| `ArchiveProperties.UnreadKeyIgnored` | src/nomad_polymerization_reactions/utils.py:61-113 | Adding or changing a key outside the recognised set leaves the result unchanged |
| `ArchiveProperties.Monomer0Ignored` | src/nomad_polymerization_reactions/utils.py:83-90 | The scan starts at 1, so adding or changing `monomer0` or `monomer0_s` leaves the result unchanged |
| `ArchiveProperties.NotMonomerKey` | src/nomad_polymerization_reactions/utils.py:85-90 | A key not starting with `m` is never a monomer or SMILES key |
| `ArchiveProperties.RValuesIgnored` | src/nomad_polymerization_reactions/utils.py:25-32 | The extraction output's `r_values` and `conf_intervals` play no part in the entry |
| `ArchiveProperties.SameDirPathIsInputIff` | src/nomad_polymerization_reactions/utils.py:115-116 | With `same_dir_as_input`, the archive path equals the input path if and only if the path holds no `.json` |
| `ArchiveProperties.OwnDirPathIsFileName` | src/nomad_polymerization_reactions/utils.py:117-118 | Otherwise the archive path is the input's last segment with the same replacement, and it holds no `/` |
| `ArchiveProperties.ArchivePathHasNoJson` | src/nomad_polymerization_reactions/utils.py:115-118 | In both branches, no `.json` is left in the archive path |
| `ArchiveProperties.SameDirRewritesDirectory` | src/nomad_polymerization_reactions/utils.py:115-116 | Next to the input, `dir.json/stem.json` becomes `dir.archive.yaml/stem.archive.yaml`: a `.json` in a directory name is rewritten too |
| `ArchiveProperties.ArchiveFileName` | src/nomad_polymerization_reactions/utils.py:117-118 | `dir/stem.json` with a dot-free `stem` gives `stem.archive.yaml` |
| `ArchiveProperties.TestArchivePath` | tests/test_utils.py:35-37 | The unit test's input path gives the `paper_0_reaction_1.archive.yaml` file that the test removes |
| `ArchiveProperties.FirstMonomerKeys` | src/nomad_polymerization_reactions/utils.py:85-90 | The f-strings give `monomer1`, `monomer1_s`, `monomer2`, `monomer2_s` and `monomer3` |
| `ArchiveProperties.DocMonomers` | src/nomad_polymerization_reactions/utils.py:19-24 | The documented example yields two monomers, ethylene (`C=C`) and carbon monoxide (`C=O`), in that order |
| `ArchiveProperties.DocConditions` | src/nomad_polymerization_reactions/utils.py:33-36 | The documented example's conditions are the converted temperature and `bulk`. The `null` solvent is left out |
| `ArchiveProperties.DocEntryFromReads` | src/nomad_polymerization_reactions/utils.py:18-40 | Any input that reads like the documented example converts to the documented entry |
| `ArchiveProperties.DocExample` | src/nomad_polymerization_reactions/utils.py:18-40 | The documented input converts to the documented entry. It holds the schema name, the file name, the DOI, the two monomers, and the temperature in kelvin with `bulk`. The `null` solvent and product and the rate constants are left out |

## Left out

- Reading the JSON file (`open`, `json.load`) is not modelled. The input is the already parsed top-level object. A top-level value that is not an object, on which `.get` would raise, is not modelled either.
- Writing the YAML file (`yaml.dump`) and the `OrderedDumper` representer are not modelled. The model returns the entry and the path it would be written to. Key order is not modelled: `dict(data_dict_ordered)` is a plain dictionary, and the tests compare dictionaries.
- The `logger` parameter is unused by the source and is not modelled.
- The pint unit conversion is a caller-supplied function, because its floating-point arithmetic and unit registry are a foreign library. Only its success or failure and its result value are modelled.
- JSON floats are held as exact reals. The converter only copies them, and the one arithmetic step is the conversion above.
- `PyStr.ReplaceAll` requires a non-empty pattern. Python's `str.replace` with an empty pattern inserts the replacement between characters, but the converter only ever replaces `.json`.
- `schema_packages/polymerization.py` and `schema_packages/mypackage.py` are not part of this model. They are declarative schema definitions on the host framework. `Monomer.normalize` in `polymerization.py` queries PubChem over the network, and the `normalize` in `mypackage.py` reads a file named by the entry.
- `apps/polymerization_reaction_app.py` is not part of this model. It is static search-UI configuration.
- `cli.py` and the entry points in `apps/__init__.py` and `schema_packages/__init__.py` are not part of this model. They are command-line and plugin-registration wiring.
