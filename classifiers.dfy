/** The two closed enumerations of a package record, with their fixed spellings. */
module Classifiers {
  import opened Nodes

  /** Why a package is in the dependency graph. */
  datatype DependencyKind = DirectMain | DirectDev | Transitive

  /** Where a package comes from. */
  datatype PackageSource = Sdk | Hosted

  /** The spelling each `DependencyKind` variant is renamed to. */
  function EncodeDependencyKind(k: DependencyKind): string
  {
    match k
    case DirectMain => "direct main"
    case DirectDev => "direct dev"
    case Transitive => "transitive"
  }

  /** Exact, case-sensitive match against the three spellings. */
  function DecodeDependencyKind(s: string): (r: Result<DependencyKind>)
    ensures r.Ok? ==> EncodeDependencyKind(r.value) == s
    ensures r.Err? ==> r.error == UnknownVariant(s)
  {
    if s == "direct main" then Ok(DirectMain)
    else if s == "direct dev" then Ok(DirectDev)
    else if s == "transitive" then Ok(Transitive)
    else Err(UnknownVariant(s))
  }

  /** The snake_case spelling of each `PackageSource` variant. */
  function EncodePackageSource(p: PackageSource): string
  {
    match p
    case Sdk => "sdk"
    case Hosted => "hosted"
  }

  function DecodePackageSource(s: string): (r: Result<PackageSource>)
    ensures r.Ok? ==> EncodePackageSource(r.value) == s
    ensures r.Err? ==> r.error == UnknownVariant(s)
  {
    if s == "sdk" then Ok(Sdk)
    else if s == "hosted" then Ok(Hosted)
    else Err(UnknownVariant(s))
  }

  /** A unit variant is read from a string node; any other node is refused. */
  function DecodeDependencyKindNode(n: Node): (r: Result<DependencyKind>)
    ensures r.Ok? ==> n == Str(EncodeDependencyKind(r.value))
    ensures !n.Str? ==> r == Err(TypeMismatch("a string"))
  {
    match n
    case Str(s) => DecodeDependencyKind(s)
    case _ => Err(TypeMismatch("a string"))
  }

  function DecodePackageSourceNode(n: Node): (r: Result<PackageSource>)
    ensures r.Ok? ==> n == Str(EncodePackageSource(r.value))
    ensures !n.Str? ==> r == Err(TypeMismatch("a string"))
  {
    match n
    case Str(s) => DecodePackageSource(s)
    case _ => Err(TypeMismatch("a string"))
  }

  /** Decoding accepts exactly the spellings encoding produces: the mapping is a bijection. */
  lemma DependencyKindBijective(s: string, k: DependencyKind)
    ensures DecodeDependencyKind(s) == Ok(k) <==> EncodeDependencyKind(k) == s
  {
  }

  lemma PackageSourceBijective(s: string, p: PackageSource)
    ensures DecodePackageSource(s) == Ok(p) <==> EncodePackageSource(p) == s
  {
  }

  /** Distinct variants have distinct spellings. */
  lemma EncodeDependencyKindInjective(a: DependencyKind, b: DependencyKind)
    ensures EncodeDependencyKind(a) == EncodeDependencyKind(b) ==> a == b
  {
  }

  lemma EncodePackageSourceInjective(a: PackageSource, b: PackageSource)
    ensures EncodePackageSource(a) == EncodePackageSource(b) ==> a == b
  {
  }

  /** The comparison is case-sensitive: a capitalised spelling is an unknown variant. */
  lemma CaseMatters()
    ensures DecodeDependencyKind("Direct Main") == Err(UnknownVariant("Direct Main"))
    ensures DecodePackageSource("SDK") == Err(UnknownVariant("SDK"))
  {
  }
}
