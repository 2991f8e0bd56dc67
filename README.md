# pubspec.lock model

A Dafny model of the typed representation of a Dart/Flutter `pubspec.lock`
file and of its decode and encode rules, as implemented by the `pubspec`
Rust crate (`src/lib.rs`).

The codec works on an abstract, already-parsed document (`Nodes.Node`): a
string scalar, a map whose entries keep their document order, or any other
node. It does not read YAML text.

- `Descriptions`: the polymorphic `Description` field. The node's shape
  decides the variant. The bare string `"flutter"` is `Flutter`, and every
  other string is refused. A map is scanned entry by entry for `name` and
  `url`: other keys are skipped, and a repeated key keeps its last value.
  After the scan `name` is required first, then `url`. Any other node is
  refused as "string or map". The scan exists twice: as the recursive
  function `Scan` and as the imperative method `VisitMap`, which mirrors the
  `while let` loop over the entries and is proved equal to the function.
  Encoding is canonical: `"flutter"`, or exactly the entries `name` then
  `url`.
- `Classifiers`: `DependencyKind` (`"direct main"`, `"direct dev"`,
  `"transitive"`) and `PackageSource` (`"sdk"`, `"hosted"`). Each is a
  bijection between variants and spellings, and matching is exact and
  case-sensitive.
- `Packages`: the four-field `Package` record, encoded in declaration order.
  `source` and `description` are decoded independently, so a mismatched
  pair (a hosted package with a `"flutter"` description) decodes.
- `KeyedMaps`: the codec of a `BTreeMap<String, V>`. Decoding inserts in
  document order, so a later key replaces an earlier one. Encoding emits
  each key once, in strictly increasing lexicographic order (`Order`).
- `LockFiles`: the document with its `sdks` and `packages` maps. The round
  trip `DecodeLockFile(EncodeLockFile(l)) == Ok(l)` holds for every lockfile.

The map visitor reads every entry's value as a `String`, because the one
value type of `next_entry` is fixed by `name = Some(value)`. A reader might
expect a skipped key to be ignored whatever its value; in the code, a skipped
key whose value is not a string (for example a list) fails the decoding, and
the model does the same.

## Model

| member | source | states |
|---|---|---|
| `Classifiers.DecodeDependencyKind` | src/lib.rs:11-19 | an accepted string is exactly the spelling of the variant it yields; anything else is `UnknownVariant` of that string |
| `Classifiers.DecodePackageSource` | src/lib.rs:21-26 | an accepted string is exactly the snake_case spelling of the variant it yields; anything else is `UnknownVariant` |
| `Classifiers.DecodeDependencyKindNode` | src/lib.rs:11-19 | only a string node can yield a dependency kind, and it is that kind's spelling; other nodes are a type mismatch |
| `Classifiers.DecodePackageSourceNode` | src/lib.rs:21-26 | only a string node can yield a source, and it is that source's spelling; other nodes are a type mismatch |
| `Classifiers.EncodeDependencyKind` | src/lib.rs:11-19 | no contract of its own; `DependencyKindBijective` and `EncodeDependencyKindInjective` state that it yields the renamed spelling of each variant, distinct for distinct variants |
| `Classifiers.EncodePackageSource` | src/lib.rs:21-26 | no contract of its own; `PackageSourceBijective` and `EncodePackageSourceInjective` state that it yields the snake_case spelling of each source, distinct for distinct sources |
| `Classifiers.DependencyKindBijective` | src/lib.rs:12-19 | decoding `s` gives `k` if and only if `k` is spelled `s`: the mapping is total and bijective |
| `Classifiers.PackageSourceBijective` | src/lib.rs:21-26 | decoding `s` gives `p` if and only if `p` is spelled `s` |
| `Classifiers.EncodeDependencyKindInjective` | src/lib.rs:12-19 | distinct dependency kinds have distinct spellings |
| `Classifiers.EncodePackageSourceInjective` | src/lib.rs:21-26 | distinct sources have distinct spellings |
| `Classifiers.CaseMatters` | src/lib.rs:13-22 | `"Direct Main"` and `"SDK"` are unknown variants: matching is case-sensitive |
| `Descriptions.Scan` | src/lib.rs:66-72 | the scan fails if and only if some entry's value is not a string, and every failure is the string type mismatch |
| `Descriptions.DecodeDescriptionMap` | src/lib.rs:59-79 | no contract of its own; `DecodeDescriptionMapSpec` characterises it, and `VisitMap` is proved equal to it |
| `Descriptions.DecodeDescription` | src/lib.rs:34-83 | `Flutter` comes only from the string `"flutter"`, `Online` only from a map; any other string is `InvalidValue` of it; a node that is neither a string nor a map is refused as "string or map"; a missing field is only ever `name` or `url` |
| `Descriptions.VisitMap` | src/lib.rs:59-79 | the loop over the entries, updating the optional `name` and `url`, returns exactly what the recursive decoding of the map returns |
| `Descriptions.ScanSpec` | src/lib.rs:63-72 | from any starting `name`/`url`, the scan fails if and only if some value is not a string; otherwise it ends with the last `name` and the last `url` of the entries, or the starting ones when there are none |
| `Descriptions.DecodeDescriptionMapSpec` | src/lib.rs:59-79 | decoding a map gives a type mismatch if a value is not a string; else `MissingField("name")` when there is no `name`; else `MissingField("url")` when there is no `url`; else `Online` of the last `name` and the last `url` |
| `Descriptions.ExtraKeyIgnored` | src/lib.rs:67-71 | inserting a string entry with a key other than `name` or `url` anywhere in the map does not change the result |
| `Descriptions.LastNameWins` | src/lib.rs:68 | when `name` is repeated, the decoded name is the value of its last occurrence |
| `Descriptions.MissingNameReported` | src/lib.rs:73-75 | a map of string values without `name` fails for `name`, whether or not `url` is present |
| `Descriptions.MissingUrlReported` | src/lib.rs:76-77 | a map of string values with `name` but without `url` fails for `url` |
| `Descriptions.EntryOrderIrrelevant` | src/lib.rs:66-72 | two maps that hold the same entries in any order, with `name` and `url` not repeated, decode to the same result |
| `Descriptions.DescriptionRoundTrip` | src/lib.rs:34-101 | decoding the encoding of any description gives it back |
| `Descriptions.EncodeDescription` | src/lib.rs:86-101 | no contract of its own; `DescriptionRoundTrip`, `ReencodeCanonical` and `EncodeDescriptionInjective` state that it is the string `"flutter"` or exactly `name` then `url`, that it decodes back, and that distinct descriptions encode differently |
| `Descriptions.ReencodeCanonical` | src/lib.rs:59-101 | re-encoding what a node decoded to gives the string itself, or exactly the two entries `name` then `url` carrying the values found, so extra keys never reappear; decoding that again gives the same value |
| `Descriptions.EncodeDescriptionInjective` | src/lib.rs:91-98 | distinct descriptions have distinct encodings |
| `Descriptions.DescriptionExamples` | src/lib.rs:48-79 | `"flutter"` decodes; another string is `InvalidValue`; a map with an extra key, a map in reverse order, a map missing `url`, an empty map, and a map whose skipped key has a non-string value decode or fail as the code says |
| `Nodes.DecodeString` | src/lib.rs:107 | a `String` field accepts exactly a string node and yields its text unchanged |
| `Order.SortedKeys` | src/lib.rs:7-8 | the keys of a map, each exactly once, in strictly increasing lexicographic order |
| `Packages.DecodePackage` | src/lib.rs:103-109 | a decoded record came from a map holding all four fields, and each field of the record is the decoded value of that key's entry, whatever the key order and whatever other keys the map holds; when all four are present and decode, decoding succeeds; the first field in declaration order, among `dependency`, `source`, `version`, `description`, whose value fails to decode gives the record's error, unchanged; a non-map is a type mismatch; a missing-field error for a record field names a key the map lacks |
| `Packages.DecodeAllFields` | src/lib.rs:103-109 | a map of the four fields in declaration order, each of which decodes, yields the package of the four decoded values |
| `Packages.AnyKeyOrderDecodes` | src/lib.rs:103-109 | a record written `description`, an unknown key, `version`, `source`, `dependency` decodes to the package of those values |
| `Packages.PackageRoundTrip` | src/lib.rs:103-109 | decoding the encoding of any package gives it back |
| `Packages.EncodePackageFields` | src/lib.rs:104-108 | the encoding has exactly the keys `dependency`, `source`, `version`, `description`, in that order |
| `Packages.EncodePackage` | src/lib.rs:103-109 | no contract of its own; `EncodePackageFields` and `PackageRoundTrip` state its keys, their order, and that it decodes back |
| `Packages.DescriptionErrorPropagates` | src/lib.rs:108 | when the other fields decode, a failing description's error is the record's error, unchanged |
| `Packages.MissingFieldReported` | src/lib.rs:104-107 | when every present field decodes, the first absent field in declaration order is the one reported missing |
| `Packages.MissingVersionReported` | src/lib.rs:107 | a well-formed record lacking `version` fails with `MissingField("version")` |
| `KeyedMaps.EncodeMap` | src/lib.rs:7-8 | the encoding has one entry per key of the map, keys in strictly increasing order, each carrying the encoding of that key's value |
| `KeyedMaps.DecodeMap` | src/lib.rs:7-8 | decoding succeeds exactly when every entry's value decodes; then the keys are exactly the entries' keys, and each key's value is the decoded value of the last entry with that key; a failure is the unchanged error of the first entry, in document order, whose value does not decode |
| `KeyedMaps.DecodeMapNode` | src/lib.rs:7-8 | only a map node decodes to a map, whose keys are the node's keys; any other node is a type mismatch |
| `KeyedMaps.DecodeAppend` | src/lib.rs:7-8 | appending an entry whose value decodes to a map that decodes inserts that key and value over the earlier result |
| `KeyedMaps.MapRoundTrip` | src/lib.rs:7-8 | for any value codec that round-trips, decoding an encoded map gives it back |
| `LockFiles.DecodeLockFile` | src/lib.rs:5-9 | a decoded lockfile came from a map holding `sdks` and `packages`, and its two maps are the decoded values of those keys' entries, whatever the key order and whatever other keys the map holds; when both are present and decode, decoding succeeds; a failing `sdks` value gives the error, else a failing `packages` value; `sdks` is reported missing when the map lacks it and `packages` has no error; `packages` is reported missing when `sdks` decodes and the map lacks `packages`; a non-map is a type mismatch |
| `LockFiles.DecodeSdks` | src/lib.rs:7 | no contract of its own; it is `KeyedMaps.DecodeMapNode` with string values, whose contract applies, and `SdksRoundTrip` states its round trip |
| `LockFiles.DecodePackages` | src/lib.rs:8 | no contract of its own; it is `KeyedMaps.DecodeMapNode` with package values, and `PackagesRoundTrip` states its round trip |
| `LockFiles.EncodeLockFile` | src/lib.rs:5-9 | no contract of its own; `EncodeLockFileSorted` and `LockFileRoundTrip` state its keys, the sorted order of both maps, and that it decodes back |
| `LockFiles.DecodeBothFields` | src/lib.rs:5-9 | a map of `sdks` then `packages`, both of which decode, yields the lockfile of the two decoded maps |
| `LockFiles.SdksRoundTrip` | src/lib.rs:7 | decoding the encoding of any SDK map gives it back |
| `LockFiles.PackagesRoundTrip` | src/lib.rs:8 | decoding the encoding of any package map gives it back |
| `LockFiles.LockFileRoundTrip` | src/lib.rs:5-9 | decoding the encoding of any lockfile gives it back |
| `LockFiles.EncodeLockFileSorted` | src/lib.rs:6-9 | the encoding has the keys `sdks` then `packages`; each of the two maps lists its keys each once and in strictly increasing order |
| `LockFiles.ExampleDecodes` | src/lib.rs:5-109 | a document with one SDK constraint, an SDK package and a hosted package decodes to the expected lockfile |
| `LockFiles.ExampleAnyOrderDecodes` | src/lib.rs:5-9 | the same document with `packages` first, an unknown top-level key, then `sdks` decodes to the same lockfile |
| `LockFiles.ExampleReencodes` | src/lib.rs:5-109 | re-encoding that decoded lockfile and decoding again gives the same value |

## Left out

- YAML text and the YAML library are not modelled. The model starts from an already-parsed node. Which scalars the library presents as strings (numbers, booleans) is the library's decision. `Str` stands for whatever it hands over as a string.
- Map keys are strings in the model. Non-string YAML keys, and the visitor's requirement that a key can be borrowed as `&str`, are not modelled.
- serde's `Deserializer`/`Visitor`/`MapAccess` machinery, the `expecting` text and the `serialize_map(Some(2))` size hint are not modelled. A direct match on the node's shape replaces them.
- Error messages are not modelled word for word. Errors are kinds: which field is missing, a type mismatch with the expected shape, an unknown variant, an invalid string.
- Packages.DecodePackage: a field key that appears more than once is decoded from its first entry, and the record decodes. The derived decoder refuses a repeated field with a `duplicate_field` error instead; the model has no such error, so its success clause and `Packages.PackageFromFields` hold for records that the derived decoder refuses.
- LockFiles.DecodeLockFile: a repeated `sdks` or `packages` key is decoded from its first entry, and the document decodes, where the derived decoder refuses it with a `duplicate_field` error; the same holds for `LockFiles.LockFileFromFields`. Unknown top-level keys are skipped, as the derived decoder does.
- Packages.DecodePackage: the sequence form of a record (the derived decoder's `visit_seq`, which takes the four field values in declaration order, as in `[direct main, sdk, "1.0", flutter]`) is not modelled, because the node model has no sequence node; such a document falls under `Other` and is refused.
- LockFiles.DecodeLockFile: the sequence form of the document (`[sdks, packages]`, through the derived `visit_seq`) is not modelled, for the same reason; it is refused as a type mismatch.
- Packages.DecodePackage, LockFiles.DecodeLockFile: when several present fields of one record fail, the model reports the first in declaration order. The derived decoder may report the first in document order instead.
- Other enum encodings the YAML library might accept for a unit variant (tagged or single-key map forms) are left out. The model accepts a dependency kind or a source only as a string.
- The command-line program (`examples/pubspec-lock.rs`) is left out: argument parsing, reading the file, and the debug print are I/O around the codec.
- The `Debug` derives are left out.
