/** The whole lockfile: SDK constraints and resolved packages, each a sorted map. */
module LockFiles {
  import opened Nodes
  import opened Order
  import opened Classifiers
  import opened Descriptions
  import opened Packages
  import opened KeyedMaps

  datatype LockFile = LockFile(sdks: map<string, string>, packages: map<string, Package>)

  /** A string value as a node. */
  function StrNode(s: string): Node
  {
    Str(s)
  }

  function DecodeSdks(n: Node): Result<map<string, string>>
  {
    DecodeMapNode(n, DecodeString)
  }

  function DecodePackages(n: Node): Result<map<string, Package>>
  {
    DecodeMapNode(n, DecodePackage)
  }

  function EncodeLockFile(l: LockFile): Node
  {
    Map([("sdks", EncodeMap(l.sdks, StrNode)), ("packages", EncodeMap(l.packages, EncodePackage))])
  }

  /** Each field of a document, looked up and decoded; `None` when absent. */
  function SdksField(entries: seq<(string, Node)>): Option<Result<map<string, string>>>
  {
    Field(entries, "sdks", DecodeSdks)
  }

  function PackagesField(entries: seq<(string, Node)>): Option<Result<map<string, Package>>>
  {
    Field(entries, "packages", DecodePackages)
  }

  /** Decoding a document: the present fields' values first, then the
      missing fields, each in declaration order. Keys may come in any order,
      and other keys are skipped. */
  function DecodeLockFile(n: Node): (r: Result<LockFile>)
    ensures r.Ok? ==> n.Map? && HasKey(n.entries, "sdks") && HasKey(n.entries, "packages")
    ensures r.Ok? ==> (n.Map? &&
                       SdksField(n.entries) == Some(Ok(r.value.sdks)) &&
                       PackagesField(n.entries) == Some(Ok(r.value.packages)))
    ensures (n.Map? &&
             SdksField(n.entries).Some? && SdksField(n.entries).value.Ok? &&
             PackagesField(n.entries).Some? && PackagesField(n.entries).value.Ok?) ==> r.Ok?
    ensures !n.Map? ==> r == Err(TypeMismatch("struct LockFile"))
    ensures (n.Map? && FieldError(SdksField(n.entries)).Some?)
      ==> r == Err(FieldError(SdksField(n.entries)).value)
    ensures (n.Map? && FieldError(SdksField(n.entries)).None? && FieldError(PackagesField(n.entries)).Some?)
      ==> r == Err(FieldError(PackagesField(n.entries)).value)
    ensures (n.Map? && !HasKey(n.entries, "sdks") && FieldError(PackagesField(n.entries)).None?)
      ==> r == Err(MissingField("sdks"))
    ensures (n.Map? && SdksField(n.entries).Some? && SdksField(n.entries).value.Ok? &&
             !HasKey(n.entries, "packages")) ==> r == Err(MissingField("packages"))
  {
    match n
    case Map(entries) =>
      var sdks := SdksField(entries);
      var packages := PackagesField(entries);
      if FieldError(sdks).Some? then Err(FieldError(sdks).value)
      else if FieldError(packages).Some? then Err(FieldError(packages).value)
      else if sdks.None? then Err(MissingField("sdks"))
      else if packages.None? then Err(MissingField("packages"))
      else Ok(LockFile(sdks.value.value, packages.value.value))
    case _ => Err(TypeMismatch("struct LockFile"))
  }

  lemma SdksRoundTrip(m: map<string, string>)
    ensures DecodeSdks(EncodeMap(m, StrNode)) == Ok(m)
  {
    MapRoundTrip(m, StrNode, DecodeString);
  }

  lemma PackagesRoundTrip(m: map<string, Package>)
    ensures DecodePackages(EncodeMap(m, EncodePackage)) == Ok(m)
  {
    forall p | true ensures DecodePackage(EncodePackage(p)) == Ok(p) {
      PackageRoundTrip(p);
    }
    MapRoundTrip(m, EncodePackage, DecodePackage);
  }

  /** A document whose two fields decode is the lockfile of their values. */
  lemma DecodeBothFields(sdks: Node, packages: Node)
    requires DecodeSdks(sdks).Ok? && DecodePackages(packages).Ok?
    ensures DecodeLockFile(Map([("sdks", sdks), ("packages", packages)]))
      == Ok(LockFile(DecodeSdks(sdks).value, DecodePackages(packages).value))
  {
    var e := [("sdks", sdks), ("packages", packages)];
    assert Lookup(e, "sdks") == Some(sdks);
    assert Lookup(e, "packages") == Lookup(e[1..], "packages") == Some(packages);
  }

  /** A document whose two fields are present and decode, wherever they are
      and whatever else it holds, is the lockfile of their values. */
  lemma LockFileFromFields(entries: seq<(string, Node)>, l: LockFile)
    requires SdksField(entries) == Some(Ok(l.sdks))
    requires PackagesField(entries) == Some(Ok(l.packages))
    ensures DecodeLockFile(Map(entries)) == Ok(l)
  {
  }

  /** Decoding undoes encoding, down to every package and description. */
  lemma LockFileRoundTrip(l: LockFile)
    ensures DecodeLockFile(EncodeLockFile(l)) == Ok(l)
  {
    SdksRoundTrip(l.sdks);
    PackagesRoundTrip(l.packages);
    DecodeBothFields(EncodeMap(l.sdks, StrNode), EncodeMap(l.packages, EncodePackage));
  }

  /** The two top-level entries: their keys, and both values are maps. */
  lemma PairShape(sdks: Node, packages: Node)
    requires sdks.Map? && packages.Map?
    ensures KeysOf([("sdks", sdks), ("packages", packages)]) == ["sdks", "packages"]
    ensures forall i :: 0 <= i < 2 ==> [("sdks", sdks), ("packages", packages)][i].1.Map?
  {
  }

  /** Encoding emits each map's keys once each, in strictly increasing order. */
  lemma EncodeLockFileSorted(l: LockFile)
    ensures EncodeLockFile(l).Map? && KeysOf(EncodeLockFile(l).entries) == ["sdks", "packages"]
    ensures forall i :: 0 <= i < 2 ==> EncodeLockFile(l).entries[i].1.Map?
    ensures StrictlyIncreasing(KeysOf(EncodeLockFile(l).entries[0].1.entries))
    ensures StrictlyIncreasing(KeysOf(EncodeLockFile(l).entries[1].1.entries))
    ensures forall k :: k in l.sdks <==> k in KeysOf(EncodeLockFile(l).entries[0].1.entries)
    ensures forall k :: k in l.packages <==> k in KeysOf(EncodeLockFile(l).entries[1].1.entries)
  {
    var sdks, packages := EncodeMap(l.sdks, StrNode), EncodeMap(l.packages, EncodePackage);
    var e := EncodeLockFile(l).entries;
    assert e == [("sdks", sdks), ("packages", packages)];
    PairShape(sdks, packages);
    MapKeysListed(l.sdks, StrNode);
    MapKeysListed(l.packages, EncodePackage);
  }

  /** A small document: one SDK constraint, an SDK package and a hosted
      one. */
  function ExampleNode(): Node
  {
    Map([("sdks", ExampleSdks()), ("packages", ExamplePackages())])
  }

  function ExampleSdks(): Node
  {
    Map([("dart", Str(">=2.12.0"))])
  }

  function ExamplePackages(): Node
  {
    Map([("flutter", FlutterNode()), ("meta", MetaNode())])
  }

  function FlutterNode(): Node
  {
    Map([
      ("dependency", Str("direct main")),
      ("source", Str("sdk")),
      ("version", Str("0.0.0")),
      ("description", Str("flutter"))])
  }

  function MetaNode(): Node
  {
    Map([
      ("dependency", Str("transitive")),
      ("source", Str("hosted")),
      ("version", Str("1.8.0")),
      ("description", Map([("name", Str("meta")), ("url", Str("https://pub.dev"))]))])
  }

  function FlutterPackage(): Package
  {
    Package(DirectMain, Sdk, "0.0.0", Flutter)
  }

  function MetaPackage(): Package
  {
    Package(Transitive, Hosted, "1.8.0", Online("meta", "https://pub.dev"))
  }

  function ExampleLockFile(): LockFile
  {
    LockFile(map["dart" := ">=2.12.0"], map["flutter" := FlutterPackage(), "meta" := MetaPackage()])
  }

  lemma ExampleFlutterDecodes()
    ensures DecodePackage(FlutterNode()) == Ok(FlutterPackage())
  {
    DecodeAllFields(Str("direct main"), Str("sdk"), Str("0.0.0"), Str("flutter"));
  }

  lemma ExampleMetaDecodes()
    ensures DecodePackage(MetaNode()) == Ok(MetaPackage())
  {
    var d := Online("meta", "https://pub.dev");
    DescriptionRoundTrip(d);
    DecodeAllFields(Str("transitive"), Str("hosted"), Str("1.8.0"), EncodeDescription(d));
  }

  /** A map of two packages, each of which decodes. */
  lemma TwoPackagesDecode(a: (string, Node), b: (string, Node), pa: Package, pb: Package)
    requires DecodePackage(a.1) == Ok(pa) && DecodePackage(b.1) == Ok(pb)
    ensures DecodePackages(Map([a, b])) == Ok(map[a.0 := pa][b.0 := pb])
  {
    DecodePair(a, b, DecodePackage);
  }

  lemma ExamplePackagesDecode()
    ensures DecodePackages(ExamplePackages()) == Ok(ExampleLockFile().packages)
  {
    ExampleFlutterDecodes();
    ExampleMetaDecodes();
    TwoPackagesDecode(("flutter", FlutterNode()), ("meta", MetaNode()), FlutterPackage(), MetaPackage());
  }

  lemma ExampleSdksDecode()
    ensures DecodeSdks(ExampleSdks()) == Ok(ExampleLockFile().sdks)
  {
    assert ExampleSdks().entries[..0] == [];
  }

  /** The example decodes to the expected value. */
  lemma ExampleDecodes()
    ensures DecodeLockFile(ExampleNode()) == Ok(ExampleLockFile())
  {
    ExampleSdksDecode();
    ExamplePackagesDecode();
    DecodeBothFields(ExampleSdks(), ExamplePackages());
  }

  /** A document with `packages` first, an unknown key, then `sdks`, both of
      which decode, is the lockfile of the two decoded maps. */
  lemma SwappedFieldsDecode(sdks: Node, packages: Node)
    requires DecodeSdks(sdks).Ok? && DecodePackages(packages).Ok?
    ensures DecodeLockFile(Map([("packages", packages), ("x", Other), ("sdks", sdks)]))
      == Ok(LockFile(DecodeSdks(sdks).value, DecodePackages(packages).value))
  {
    var e: seq<(string, Node)> := [("packages", packages), ("x", Other), ("sdks", sdks)];
    assert Lookup(e, "packages") == Some(packages);
    assert Lookup(e, "sdks") == Lookup(e[2..], "sdks") == Some(sdks) by { assert e[1..][1..] == e[2..]; }
    LockFileFromFields(e, LockFile(DecodeSdks(sdks).value, DecodePackages(packages).value));
  }

  /** The same document with its fields swapped and an unknown top-level key
      in between decodes to the same lockfile. */
  lemma ExampleAnyOrderDecodes()
    ensures DecodeLockFile(Map([("packages", ExamplePackages()), ("x", Other), ("sdks", ExampleSdks())]))
      == Ok(ExampleLockFile())
  {
    ExampleSdksDecode();
    ExamplePackagesDecode();
    SwappedFieldsDecode(ExampleSdks(), ExamplePackages());
  }

  /** Re-encoding the decoded example and decoding again gives the same value. */
  lemma ExampleReencodes()
    ensures DecodeLockFile(ExampleNode()).Ok?
    ensures DecodeLockFile(EncodeLockFile(DecodeLockFile(ExampleNode()).value)) == DecodeLockFile(ExampleNode())
  {
    ExampleDecodes();
    LockFileRoundTrip(ExampleLockFile());
  }
}
