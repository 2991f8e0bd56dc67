/** The polymorphic `description` field of a package record.

    Its variant is told apart by the shape of the node, not by a tag: the
    bare string `"flutter"` is the SDK description, a map carrying `name` and
    `url` is the description of a hosted package. Decoding a map is lenient
    (other keys are skipped, a repeated key keeps its last value); encoding is
    canonical (exactly `name` then `url`).
 */
module Descriptions {
  import opened Nodes

  datatype Description = Flutter | Online(name: string, url: string)

  function EncodeDescription(d: Description): Node
  {
    match d
    case Flutter => Str("flutter")
    case Online(name, url) => Map([("name", Str(name)), ("url", Str(url))])
  }

  /** The scan over a map's entries, carrying the `name` and `url` seen so far.
      Every entry's value is read as a string, including the values of the
      keys that are then skipped. */
  function Scan(entries: seq<(string, Node)>, name: Option<string>, url: Option<string>)
    : (r: Result<(Option<string>, Option<string>)>)
    ensures r.Err? <==> !AllStrings(entries)
    ensures r.Err? ==> r.error == TypeMismatch("a string")
    decreases |entries|
  {
    if |entries| == 0 then Ok((name, url))
    else
      match entries[0].1
      case Str(v) =>
        var key := entries[0].0;
        assert AllStrings(entries) <==> AllStrings(entries[1..]) by {
          if AllStrings(entries[1..]) {
            forall i | 0 <= i < |entries| ensures entries[i].1.Str? {
              if i > 0 { assert entries[i] == entries[1..][i - 1]; }
            }
          }
        }
        Scan(entries[1..],
             if key == "name" then Some(v) else name,
             if key == "url" then Some(v) else url)
      case _ => Err(TypeMismatch("a string"))
  }

  /** Decoding a map node: scan, then require `name` and only then `url`. */
  function DecodeDescriptionMap(entries: seq<(string, Node)>): Result<Description>
  {
    match Scan(entries, None, None)
    case Err(e) => Err(e)
    case Ok((name, url)) =>
      if name.None? then Err(MissingField("name"))
      else if url.None? then Err(MissingField("url"))
      else Ok(Online(name.value, url.value))
  }

  /** Dispatch on the node's shape: string, else map, else refuse. */
  function DecodeDescription(n: Node): (r: Result<Description>)
    ensures r.Ok? && r.value.Flutter? ==> n == Str("flutter")
    ensures r.Ok? && r.value.Online? ==> n.Map?
    ensures n.Str? && n.s != "flutter" ==> r == Err(InvalidValue(n.s))
    ensures n.Other? ==> r == Err(TypeMismatch("string or map"))
    ensures r.Err? && r.error.MissingField? ==> r.error.field == "name" || r.error.field == "url"
  {
    match n
    case Str(s) => if s == "flutter" then Ok(Flutter) else Err(InvalidValue(s))
    case Map(entries) => DecodeDescriptionMap(entries)
    case Other => Err(TypeMismatch("string or map"))
  }

  /** The imperative form of the map decoding: one pass over the entries,
      updating the two optional locals. */
  method VisitMap(entries: seq<(string, Node)>) returns (r: Result<Description>)
    ensures r == DecodeDescriptionMap(entries)
  {
    var url: Option<string> := None;
    var name: Option<string> := None;
    var i := 0;
    while i < |entries|
      invariant 0 <= i <= |entries|
      invariant Scan(entries[i..], name, url) == Scan(entries, None, None)
    {
      var (key, value) := entries[i];
      assert entries[i..][1..] == entries[i + 1..];
      if !value.Str? {
        return Err(TypeMismatch("a string"));
      }
      if key == "name" {
        name := Some(value.s);
      } else if key == "url" {
        url := Some(value.s);
      }
      i := i + 1;
    }
    assert entries[i..] == [];
    if name.None? {
      return Err(MissingField("name"));
    }
    if url.None? {
      return Err(MissingField("url"));
    }
    return Ok(Online(name.value, url.value));
  }

  // ---------------------------------------------------------------------
  // Reference definitions for what the scan computes

  /** Every entry's value is a string node. */
  predicate AllStrings(entries: seq<(string, Node)>)
  {
    forall i :: 0 <= i < |entries| ==> entries[i].1.Str?
  }

  /** The string value of the LAST entry with key `key`, if there is one. */
  function LastValue(entries: seq<(string, Node)>, key: string): Option<string>
    decreases |entries|
  {
    if |entries| == 0 then None
    else
      var later := LastValue(entries[1..], key);
      if later.Some? then later
      else if entries[0].0 == key && entries[0].1.Str? then Some(entries[0].1.s)
      else None
  }

  /** `later` if it is present, `earlier` otherwise. */
  function Override(earlier: Option<string>, later: Option<string>): Option<string>
  {
    if later.Some? then later else earlier
  }

  /** The key `key` occurs in at most one entry. */
  predicate AtMostOnce(entries: seq<(string, Node)>, key: string)
  {
    forall i, j :: 0 <= i < |entries| && 0 <= j < |entries| && entries[i].0 == key && entries[j].0 == key ==> i == j
  }

  lemma {:induction false} ScanSpec(entries: seq<(string, Node)>, name: Option<string>, url: Option<string>)
    ensures Scan(entries, name, url) ==
      if AllStrings(entries)
      then Ok((Override(name, LastValue(entries, "name")), Override(url, LastValue(entries, "url"))))
      else Err(TypeMismatch("a string"))
    decreases |entries|
  {
    if |entries| > 0 {
      if entries[0].1.Str? {
        var key, v := entries[0].0, entries[0].1.s;
        ScanSpec(entries[1..], if key == "name" then Some(v) else name, if key == "url" then Some(v) else url);
        assert AllStrings(entries) <==> AllStrings(entries[1..]) by {
          if AllStrings(entries[1..]) {
            forall i | 0 <= i < |entries| ensures entries[i].1.Str? {
              if i > 0 { assert entries[i] == entries[1..][i - 1]; }
            }
          }
        }
      } else {
        assert !AllStrings(entries);
      }
    }
  }

  /** What decoding a map means: a refusal if some value is not a string;
      otherwise the last `name` and the last `url`, `name` being reported
      missing before `url`. */
  lemma DecodeDescriptionMapSpec(entries: seq<(string, Node)>)
    ensures DecodeDescriptionMap(entries) ==
      if !AllStrings(entries) then Err(TypeMismatch("a string"))
      else if LastValue(entries, "name").None? then Err(MissingField("name"))
      else if LastValue(entries, "url").None? then Err(MissingField("url"))
      else Ok(Online(LastValue(entries, "name").value, LastValue(entries, "url").value))
  {
    ScanSpec(entries, None, None);
  }

  lemma {:induction false} LastValueAbsent(entries: seq<(string, Node)>, key: string)
    requires AllStrings(entries)
    ensures LastValue(entries, key).None? <==> !HasKey(entries, key)
    decreases |entries|
  {
    if |entries| > 0 {
      LastValueAbsent(entries[1..], key);
      if HasKey(entries[1..], key) {
        var i :| 0 <= i < |entries[1..]| && entries[1..][i].0 == key;
        assert entries[i + 1].0 == key;
      }
      if HasKey(entries, key) && entries[0].0 != key {
        var i :| 0 <= i < |entries| && entries[i].0 == key;
        assert entries[1..][i - 1].0 == key;
      }
    }
  }

  lemma {:induction false} LastValueOccurs(entries: seq<(string, Node)>, key: string)
    ensures LastValue(entries, key).Some? ==> (key, Str(LastValue(entries, key).value)) in entries
    decreases |entries|
  {
    if |entries| > 0 {
      LastValueOccurs(entries[1..], key);
      if LastValue(entries[1..], key).Some? {
        assert (key, Str(LastValue(entries, key).value)) in entries[1..];
      }
    }
  }

  lemma {:induction false} LastValueConcat(a: seq<(string, Node)>, b: seq<(string, Node)>, key: string)
    ensures LastValue(a + b, key) == Override(LastValue(a, key), LastValue(b, key))
    decreases |a|
  {
    if |a| == 0 {
      assert a + b == b;
    } else {
      assert (a + b)[1..] == a[1..] + b;
      LastValueConcat(a[1..], b, key);
    }
  }

  /** With a key occurring at most once, its value is the one entry that carries it. */
  lemma LastValueOfUniqueKey(entries: seq<(string, Node)>, key: string, v: string)
    requires AllStrings(entries) && AtMostOnce(entries, key)
    ensures LastValue(entries, key) == Some(v) <==> (key, Str(v)) in entries
  {
    LastValueOccurs(entries, key);
    if (key, Str(v)) in entries {
      var i :| 0 <= i < |entries| && entries[i] == (key, Str(v));
      LastValueAbsent(entries, key);
      var j :| 0 <= j < |entries| && entries[j] == (key, Str(LastValue(entries, key).value));
      assert i == j;
    }
  }

  /** Keys other than `name` and `url` are skipped, wherever they stand. */
  lemma ExtraKeyIgnored(a: seq<(string, Node)>, b: seq<(string, Node)>, key: string, v: string)
    requires key != "name" && key != "url"
    ensures DecodeDescriptionMap(a + [(key, Str(v))] + b) == DecodeDescriptionMap(a + b)
  {
    var x: (string, Node) := (key, Str(v));
    var e := a + [x] + b;
    DecodeDescriptionMapSpec(e);
    DecodeDescriptionMapSpec(a + b);
    LastValueConcat(a + [x], b, "name");
    LastValueConcat(a + [x], b, "url");
    LastValueConcat(a, [x], "name");
    LastValueConcat(a, [x], "url");
    LastValueConcat(a, b, "name");
    LastValueConcat(a, b, "url");
    assert LastValue([x], "name") == None && LastValue([x], "url") == None by {
      assert [x][1..] == [];
    }
    assert AllStrings(e) <==> AllStrings(a + b) by {
      if AllStrings(a + b) {
        forall i | 0 <= i < |e| ensures e[i].1.Str? {
          if i < |a| { assert e[i] == (a + b)[i]; }
          else if i > |a| { assert e[i] == (a + b)[i - 1]; }
        }
      }
      if AllStrings(e) {
        forall i | 0 <= i < |a + b| ensures (a + b)[i].1.Str? {
          if i < |a| { assert e[i] == (a + b)[i]; }
          else { assert e[i + 1] == (a + b)[i]; }
        }
      }
    }
  }

  /** A repeated `name` keeps the value of its last occurrence. */
  lemma LastNameWins(a: seq<(string, Node)>, v: string, b: seq<(string, Node)>)
    requires !HasKey(b, "name")
    ensures var r := DecodeDescriptionMap(a + [("name", Str(v))] + b);
      r.Ok? ==> r.value == Online(v, r.value.url)
  {
    var x: (string, Node) := ("name", Str(v));
    var e := a + [x] + b;
    DecodeDescriptionMapSpec(e);
    if AllStrings(e) {
      assert AllStrings(b) by {
        forall i | 0 <= i < |b| ensures b[i].1.Str? { assert b[i] == e[|a| + 1 + i]; }
      }
      LastValueAbsent(b, "name");
      LastValueConcat(a + [x], b, "name");
      LastValueConcat(a, [x], "name");
      assert LastValue([x], "name") == Some(v) by { assert [x][1..] == []; }
    }
  }

  /** A map lacking `name` is refused for `name`, whether or not `url` is there. */
  lemma MissingNameReported(entries: seq<(string, Node)>)
    requires AllStrings(entries) && !HasKey(entries, "name")
    ensures DecodeDescriptionMap(entries) == Err(MissingField("name"))
  {
    DecodeDescriptionMapSpec(entries);
    LastValueAbsent(entries, "name");
  }

  /** A map with `name` but no `url` is refused for `url`. */
  lemma MissingUrlReported(entries: seq<(string, Node)>)
    requires AllStrings(entries) && HasKey(entries, "name") && !HasKey(entries, "url")
    ensures DecodeDescriptionMap(entries) == Err(MissingField("url"))
  {
    DecodeDescriptionMapSpec(entries);
    LastValueAbsent(entries, "name");
    LastValueAbsent(entries, "url");
  }

  /** The order of the entries does not matter when `name` and `url` are not repeated. */
  lemma EntryOrderIrrelevant(a: seq<(string, Node)>, b: seq<(string, Node)>)
    requires multiset(a) == multiset(b)
    requires AtMostOnce(a, "name") && AtMostOnce(a, "url")
    requires AtMostOnce(b, "name") && AtMostOnce(b, "url")
    ensures DecodeDescriptionMap(a) == DecodeDescriptionMap(b)
  {
    DecodeDescriptionMapSpec(a);
    DecodeDescriptionMapSpec(b);
    forall e | e in a ensures e in b { assert e in multiset(a); }
    forall e | e in b ensures e in a { assert e in multiset(b); }
    assert AllStrings(a) <==> AllStrings(b) by {
      if AllStrings(a) {
        forall j | 0 <= j < |b| ensures b[j].1.Str? {
          assert b[j] in a;
        }
      }
      if AllStrings(b) {
        forall j | 0 <= j < |a| ensures a[j].1.Str? {
          assert a[j] in b;
        }
      }
    }
    if AllStrings(a) {
      SameLastValue(a, b, "name");
      SameLastValue(a, b, "url");
    }
  }

  lemma SameLastValue(a: seq<(string, Node)>, b: seq<(string, Node)>, key: string)
    requires AllStrings(a) && AllStrings(b) && AtMostOnce(a, key) && AtMostOnce(b, key)
    requires forall e :: e in a <==> e in b
    ensures LastValue(a, key) == LastValue(b, key)
  {
    LastValueAbsent(a, key);
    LastValueAbsent(b, key);
    if HasKey(a, key) {
      var i :| 0 <= i < |a| && a[i].0 == key;
      assert a[i] in b;
    }
    if HasKey(b, key) {
      var i :| 0 <= i < |b| && b[i].0 == key;
      assert b[i] in a;
    }
    if LastValue(a, key).Some? {
      var v := LastValue(a, key).value;
      LastValueOfUniqueKey(a, key, v);
      LastValueOfUniqueKey(b, key, v);
    }
  }

  /** Decoding undoes encoding. */
  lemma DescriptionRoundTrip(d: Description)
    ensures DecodeDescription(EncodeDescription(d)) == Ok(d)
  {
    if d.Online? {
      var e := EncodeDescription(d).entries;
      assert e[1..][1..] == [];
      assert Scan(e, None, None) == Scan(e[1..], Some(d.name), None);
      assert Scan(e[1..], Some(d.name), None) == Scan(e[1..][1..], Some(d.name), Some(d.url));
    }
  }

  /** Re-encoding a decoded description gives its canonical form: the bare
      string, or exactly the entries `name` then `url`, whatever else the
      decoded map held. */
  lemma ReencodeCanonical(n: Node, d: Description)
    requires DecodeDescription(n) == Ok(d)
    ensures n.Str? ==> EncodeDescription(d) == n
    ensures n.Map? ==>
      (LastValue(n.entries, "name").Some? && LastValue(n.entries, "url").Some? &&
       EncodeDescription(d) == Map([("name", Str(LastValue(n.entries, "name").value)),
                                    ("url", Str(LastValue(n.entries, "url").value))]))
    ensures DecodeDescription(EncodeDescription(d)) == DecodeDescription(n)
  {
    if n.Map? {
      DecodeDescriptionMapSpec(n.entries);
    }
    DescriptionRoundTrip(d);
  }

  /** Two descriptions with the same encoding are equal. */
  lemma EncodeDescriptionInjective(d: Description, e: Description)
    requires EncodeDescription(d) == EncodeDescription(e)
    ensures d == e
  {
    DescriptionRoundTrip(d);
    DescriptionRoundTrip(e);
  }

  /** Concrete documents: each shape of description, well formed or not. */
  lemma DescriptionExamples()
    ensures DecodeDescription(Str("flutter")) == Ok(Flutter)
    ensures DecodeDescription(Str("hosted")) == Err(InvalidValue("hosted"))
    ensures DecodeDescription(Map([("name", Str("x")), ("url", Str("y")), ("extra", Str("z"))])) == Ok(Online("x", "y"))
    ensures DecodeDescription(Map([("url", Str("y")), ("name", Str("x"))])) == Ok(Online("x", "y"))
    ensures DecodeDescription(Map([("name", Str("x"))])) == Err(MissingField("url"))
    ensures DecodeDescription(Map([])) == Err(MissingField("name"))
    ensures DecodeDescription(Map([("name", Str("x")), ("url", Str("y")), ("extra", Other)])) == Err(TypeMismatch("a string"))
  {
  }
}
