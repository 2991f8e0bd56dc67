/** A package record: four required fields, encoded in declaration order. */
module Packages {
  import opened Nodes
  import opened Classifiers
  import opened Descriptions

  datatype Package = Package(
    dependency: DependencyKind,
    source: PackageSource,
    version: string,
    description: Description)

  /** The four field names, in declaration order. */
  const Fields: seq<string> := ["dependency", "source", "version", "description"]

  function EncodePackage(p: Package): Node
  {
    Map([("dependency", Str(EncodeDependencyKind(p.dependency))),
         ("source", Str(EncodePackageSource(p.source))),
         ("version", Str(p.version)),
         ("description", EncodeDescription(p.description))])
  }

  /** Each field of a record, looked up and decoded; `None` when absent. */
  function DependencyField(entries: seq<(string, Node)>): Option<Result<DependencyKind>>
  {
    Field(entries, "dependency", DecodeDependencyKindNode)
  }

  function SourceField(entries: seq<(string, Node)>): Option<Result<PackageSource>>
  {
    Field(entries, "source", DecodePackageSourceNode)
  }

  function VersionField(entries: seq<(string, Node)>): Option<Result<string>>
  {
    Field(entries, "version", DecodeString)
  }

  function DescriptionField(entries: seq<(string, Node)>): Option<Result<Description>>
  {
    Field(entries, "description", DecodeDescription)
  }

  /** Decoding a record: the present fields' values first, then the missing
      fields, each in declaration order; the first failure is reported.
      Keys may come in any order, and other keys are skipped. */
  function DecodePackage(n: Node): (r: Result<Package>)
    ensures r.Ok? ==> n.Map? && forall f :: f in Fields ==> HasKey(n.entries, f)
    ensures r.Ok? ==> (n.Map? &&
                       DependencyField(n.entries) == Some(Ok(r.value.dependency)) &&
                       SourceField(n.entries) == Some(Ok(r.value.source)) &&
                       VersionField(n.entries) == Some(Ok(r.value.version)) &&
                       DescriptionField(n.entries) == Some(Ok(r.value.description)))
    ensures (n.Map? &&
             DependencyField(n.entries).Some? && DependencyField(n.entries).value.Ok? &&
             SourceField(n.entries).Some? && SourceField(n.entries).value.Ok? &&
             VersionField(n.entries).Some? && VersionField(n.entries).value.Ok? &&
             DescriptionField(n.entries).Some? && DescriptionField(n.entries).value.Ok?) ==> r.Ok?
    ensures !n.Map? ==> r == Err(TypeMismatch("struct Package"))
    ensures (n.Map? && FieldError(DependencyField(n.entries)).Some?)
      ==> r == Err(FieldError(DependencyField(n.entries)).value)
    ensures (n.Map? && FieldError(DependencyField(n.entries)).None? &&
             FieldError(SourceField(n.entries)).Some?)
      ==> r == Err(FieldError(SourceField(n.entries)).value)
    ensures (n.Map? && FieldError(DependencyField(n.entries)).None? &&
             FieldError(SourceField(n.entries)).None? &&
             FieldError(VersionField(n.entries)).Some?)
      ==> r == Err(FieldError(VersionField(n.entries)).value)
    ensures (n.Map? && FieldError(DependencyField(n.entries)).None? &&
             FieldError(SourceField(n.entries)).None? &&
             FieldError(VersionField(n.entries)).None? &&
             FieldError(DescriptionField(n.entries)).Some?)
      ==> r == Err(FieldError(DescriptionField(n.entries)).value)
    ensures r.Err? && r.error.MissingField? && r.error.field in Fields ==>
      n.Map? && !HasKey(n.entries, r.error.field)
  {
    match n
    case Map(entries) =>
      var dependency := DependencyField(entries);
      var source := SourceField(entries);
      var version := VersionField(entries);
      var description := DescriptionField(entries);
      if FieldError(dependency).Some? then Err(FieldError(dependency).value)
      else if FieldError(source).Some? then Err(FieldError(source).value)
      else if FieldError(version).Some? then Err(FieldError(version).value)
      else if FieldError(description).Some? then Err(FieldError(description).value)
      else if dependency.None? then Err(MissingField("dependency"))
      else if source.None? then Err(MissingField("source"))
      else if version.None? then Err(MissingField("version"))
      else if description.None? then Err(MissingField("description"))
      else Ok(Package(dependency.value.value, source.value.value, version.value.value, description.value.value))
    case _ => Err(TypeMismatch("struct Package"))
  }

  /** A record whose four fields are present and decode, wherever they are
      and whatever else the map holds, is the package of their values. */
  lemma PackageFromFields(entries: seq<(string, Node)>, p: Package)
    requires DependencyField(entries) == Some(Ok(p.dependency))
    requires SourceField(entries) == Some(Ok(p.source))
    requires VersionField(entries) == Some(Ok(p.version))
    requires DescriptionField(entries) == Some(Ok(p.description))
    ensures DecodePackage(Map(entries)) == Ok(p)
  {
  }

  /** Keys in any order, with skipped keys between them: the record
      `description`, an unknown key, `version`, `source`, `dependency`. */
  lemma AnyKeyOrderDecodes()
    ensures DecodePackage(Map([
      ("description", Str("flutter")),
      ("x", Other),
      ("version", Str("1")),
      ("source", Str("sdk")),
      ("dependency", Str("transitive"))])) == Ok(Package(Transitive, Sdk, "1", Flutter))
  {
    var e: seq<(string, Node)> := [
      ("description", Str("flutter")),
      ("x", Other),
      ("version", Str("1")),
      ("source", Str("sdk")),
      ("dependency", Str("transitive"))];
    var e2, e3, e4 := e[2..], e[3..], e[4..];
    assert Lookup(e, "description") == Some(Str("flutter"));
    assert Lookup(e2, "version") == Some(Str("1"));
    assert Lookup(e, "version") == Lookup(e2, "version") by { assert e[1..][1..] == e2; }
    assert Lookup(e3, "source") == Some(Str("sdk"));
    assert Lookup(e2, "source") == Lookup(e3, "source") by { assert e2[1..] == e3; }
    assert Lookup(e, "source") == Lookup(e2, "source") by { assert e[1..][1..] == e2; }
    assert Lookup(e4, "dependency") == Some(Str("transitive"));
    assert Lookup(e3, "dependency") == Lookup(e4, "dependency") by { assert e3[1..] == e4; }
    assert Lookup(e2, "dependency") == Lookup(e3, "dependency") by { assert e2[1..] == e3; }
    assert Lookup(e, "dependency") == Lookup(e2, "dependency") by { assert e[1..][1..] == e2; }
    PackageFromFields(e, Package(Transitive, Sdk, "1", Flutter));
  }

  /** A record of the four fields in declaration order, each of which
      decodes, is the package of their values. */
  lemma DecodeAllFields(dependency: Node, source: Node, version: Node, description: Node)
    requires DecodeDependencyKindNode(dependency).Ok? && DecodePackageSourceNode(source).Ok?
    requires DecodeString(version).Ok? && DecodeDescription(description).Ok?
    ensures DecodePackage(Map([("dependency", dependency), ("source", source),
                               ("version", version), ("description", description)]))
      == Ok(Package(DecodeDependencyKindNode(dependency).value, DecodePackageSourceNode(source).value,
                    DecodeString(version).value, DecodeDescription(description).value))
  {
    var e := [("dependency", dependency), ("source", source), ("version", version), ("description", description)];
    var e1, e2, e3 := e[1..], e[1..][1..], e[1..][1..][1..];
    assert Lookup(e, "dependency") == Some(dependency);
    assert Lookup(e, "source") == Lookup(e1, "source") == Some(source);
    assert Lookup(e, "version") == Lookup(e1, "version");
    assert Lookup(e1, "version") == Lookup(e2, "version") == Some(version);
    assert Lookup(e, "description") == Lookup(e1, "description");
    assert Lookup(e1, "description") == Lookup(e2, "description");
    assert Lookup(e2, "description") == Lookup(e3, "description") == Some(description);
  }

  /** Decoding undoes encoding. */
  lemma PackageRoundTrip(p: Package)
    ensures DecodePackage(EncodePackage(p)) == Ok(p)
  {
    DescriptionRoundTrip(p.description);
    DecodeAllFields(Str(EncodeDependencyKind(p.dependency)), Str(EncodePackageSource(p.source)),
                    Str(p.version), EncodeDescription(p.description));
  }

  /** The encoding carries exactly the four fields, in declaration order. */
  lemma EncodePackageFields(p: Package)
    ensures EncodePackage(p).Map?
    ensures |EncodePackage(p).entries| == |Fields|
    ensures forall i :: 0 <= i < |Fields| ==> EncodePackage(p).entries[i].0 == Fields[i]
  {
  }

  /** A nested failure reaches the caller unchanged: a corollary of the
      fourth propagation clause of `DecodePackage`. */
  lemma DescriptionErrorPropagates(entries: seq<(string, Node)>, d: Node)
    requires Lookup(entries, "description") == Some(d) && DecodeDescription(d).Err?
    requires DependencyField(entries).Some? && DependencyField(entries).value.Ok?
    requires SourceField(entries).Some? && SourceField(entries).value.Ok?
    requires VersionField(entries).Some? && VersionField(entries).value.Ok?
  ensures DecodePackage(Map(entries)) == Err(DecodeDescription(d).error)
  {
  }

  /** When every present field decodes, the first absent field in
      declaration order is the one reported. */
  lemma MissingFieldReported(entries: seq<(string, Node)>, i: nat)
    requires i < |Fields| && !HasKey(entries, Fields[i])
    requires forall j :: 0 <= j < i ==> HasKey(entries, Fields[j])
    requires FieldError(DependencyField(entries)).None?
    requires FieldError(SourceField(entries)).None?
    requires FieldError(VersionField(entries)).None?
    requires FieldError(DescriptionField(entries)).None?
    ensures DecodePackage(Map(entries)) == Err(MissingField(Fields[i]))
  {
    if i > 0 { assert HasKey(entries, Fields[0]); }
    if i > 1 { assert HasKey(entries, Fields[1]); }
    if i > 2 { assert HasKey(entries, Fields[2]); }
  }

  /** A record that lacks `version` but whose other fields are well formed
      is refused for `version`. */
  lemma MissingVersionReported()
    ensures DecodePackage(Map([
      ("dependency", Str("direct main")),
      ("source", Str("sdk")),
      ("description", Str("flutter"))])) == Err(MissingField("version"))
  {
  }
}
