/** The abstract document the lockfile codec works on.

    A YAML document, once parsed by the YAML library, is seen by the codec as a
    tree of nodes: a scalar string, a map whose entries keep their document
    order, or `Other`, which stands for every node the model does not tell
    apart (a number, a boolean, null, a sequence). The model refuses `Other`
    wherever a string or a map is expected; the derived record decoders would
    also accept a record written as a sequence of its field values, and that
    form is not modelled.
 */
module Nodes {

  datatype Option<T> = None | Some(value: T)

  /** The kinds of failure the codec can report. */
  datatype Error =
    | MissingField(field: string)      // a required key is absent from a map
    | TypeMismatch(expected: string)   // a node of the wrong shape
    | UnknownVariant(variant: string)  // a classifier string outside its closed set
    | InvalidValue(value: string)      // a string of the right shape but wrong content

  datatype Result<T> = Ok(value: T) | Err(error: Error)

  datatype Node =
    | Str(s: string)
    | Map(entries: seq<(string, Node)>)
    | Other

  /** The value of the first entry whose key is `key`, if any. */
  function Lookup(entries: seq<(string, Node)>, key: string): (r: Option<Node>)
    ensures r.None? <==> !HasKey(entries, key)
    decreases |entries|
  {
    if |entries| == 0 then None
    else if entries[0].0 == key then Some(entries[0].1)
    else
      var r := Lookup(entries[1..], key);
      assert HasKey(entries[1..], key) ==> HasKey(entries, key) by {
        if HasKey(entries[1..], key) {
          var i :| 0 <= i < |entries[1..]| && entries[1..][i].0 == key;
          assert entries[i + 1].0 == key;
        }
      }
      r
  }

  /** Whether some entry has key `key`. */
  predicate HasKey(entries: seq<(string, Node)>, key: string)
  {
    exists i :: 0 <= i < |entries| && entries[i].0 == key
  }

  /** The keys of a map's entries, in document order. */
  function KeysOf(entries: seq<(string, Node)>): (ks: seq<string>)
    ensures |ks| == |entries| && forall i :: 0 <= i < |entries| ==> ks[i] == entries[i].0
  {
    seq(|entries|, i requires 0 <= i < |entries| => entries[i].0)
  }

  /** A plain string field. */
  function DecodeString(n: Node): (r: Result<string>)
    ensures r.Ok? <==> n.Str?
    ensures r.Ok? ==> n == Str(r.value)
    ensures r.Err? ==> r.error == TypeMismatch("a string")
  {
    match n
    case Str(s) => Ok(s)
    case _ => Err(TypeMismatch("a string"))
  }

  /** The decoded value of a field, `None` when the key is absent. */
  function Field<T>(entries: seq<(string, Node)>, key: string, decode: Node -> Result<T>): Option<Result<T>>
  {
    match Lookup(entries, key)
    case None => None
    case Some(n) => Some(decode(n))
  }

  /** The error of a field that is present but does not decode, if any. */
  function FieldError<T>(f: Option<Result<T>>): Option<Error>
  {
    if f.Some? && f.value.Err? then Some(f.value.error) else None
  }
}
