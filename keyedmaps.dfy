/** The codec of a string-keyed sorted map (a `BTreeMap<String, V>`).

    Decoding inserts the entries in document order, so a later entry for a
    key replaces an earlier one; encoding emits every key once, in strictly
    increasing order, which is the order a sorted map iterates in.
 */
module KeyedMaps {
  import opened Nodes
  import opened Order

  /** The entries of `m` for the keys `ks`, in the order of `ks`. */
  function Entries<V>(ks: seq<string>, m: map<string, V>, encode: V -> Node): seq<(string, Node)>
    requires forall k :: k in ks ==> k in m
  {
    seq(|ks|, i requires 0 <= i < |ks| => (ks[i], encode(m[ks[i]])))
  }

  function EncodeMap<V>(m: map<string, V>, encode: V -> Node): (r: Node)
    ensures r.Map? && |r.entries| == |m|
    ensures StrictlyIncreasing(KeysOf(r.entries))
    ensures forall i :: 0 <= i < |r.entries| ==>
      r.entries[i].0 in m && r.entries[i].1 == encode(m[r.entries[i].0])
    ensures forall k :: k in m ==> HasKey(r.entries, k)
  {
    var ks := SortedKeys(m.Keys);
    var r := Map(Entries(ks, m, encode));
    assert forall k :: k in m ==> HasKey(r.entries, k) by {
      forall k | k in m ensures HasKey(r.entries, k) {
        var i :| 0 <= i < |ks| && ks[i] == k;
        assert r.entries[i].0 == k;
      }
    }
    r
  }

  /** The keys listed by the encoding are exactly the keys of the map. */
  lemma MapKeysListed<V>(m: map<string, V>, encode: V -> Node)
    ensures forall k :: k in m <==> k in KeysOf(EncodeMap(m, encode).entries)
  {
    var e := EncodeMap(m, encode).entries;
    var ks := KeysOf(e);
    forall k ensures k in m <==> k in ks {
      if k in m {
        var i :| 0 <= i < |e| && e[i].0 == k;
        assert ks[i] == k;
      }
      if k in ks {
        var i :| 0 <= i < |ks| && ks[i] == k;
        assert e[i].0 in m;
      }
    }
  }

  /** Decoding a map's entries, each value by `decode`, inserting them in
      document order; the first failing value's error is reported unchanged. */
  function DecodeMap<V>(entries: seq<(string, Node)>, decode: Node -> Result<V>): (r: Result<map<string, V>>)
    ensures r.Ok? <==> forall i :: 0 <= i < |entries| ==> decode(entries[i].1).Ok?
    ensures r.Ok? ==> forall k :: k in r.value <==> HasKey(entries, k)
    ensures r.Ok? ==> forall k :: k in r.value ==> LastDecodedFrom(entries, k, decode, r.value[k])
    ensures r.Err? ==> FirstFailure(entries, decode, r.error)
    decreases |entries|
  {
    if |entries| == 0 then Ok(map[])
    else
      var n := |entries| - 1;
      match DecodeMap(entries[..n], decode)
      case Err(e) =>
        FailureExtends(entries[..n], entries[n], decode, e);
        assert entries[..n] + [entries[n]] == entries;
        Err(e)
      case Ok(m) =>
        match decode(entries[n].1)
        case Err(e) =>
          FailureAtLast(entries[..n], entries[n], decode, e);
          assert entries[..n] + [entries[n]] == entries;
          Err(e)
        case Ok(v) =>
          InsertLast(entries[..n], entries[n], m, decode, v, m[entries[n].0 := v]);
          assert entries[..n] + [entries[n]] == entries;
          Ok(m[entries[n].0 := v])
  }

  /** The last entry with key `k` has a value that decodes to `v`. */
  ghost predicate LastDecodedFrom<V>(entries: seq<(string, Node)>, k: string, decode: Node -> Result<V>, v: V)
  {
    exists i :: 0 <= i < |entries| && entries[i].0 == k && decode(entries[i].1) == Ok(v) &&
                forall j :: i < j < |entries| ==> entries[j].0 != k
  }

  /** The first entry, in document order, whose value does not decode fails with `e`. */
  ghost predicate FirstFailure<V>(entries: seq<(string, Node)>, decode: Node -> Result<V>, e: Error)
  {
    exists i :: 0 <= i < |entries| && decode(entries[i].1) == Err(e) &&
                forall j :: 0 <= j < i ==> decode(entries[j].1).Ok?
  }

  lemma FailureExtends<V>(init: seq<(string, Node)>, last: (string, Node), decode: Node -> Result<V>, e: Error)
    requires FirstFailure(init, decode, e)
    ensures FirstFailure(init + [last], decode, e)
  {
    var i :| 0 <= i < |init| && decode(init[i].1) == Err(e) &&
             forall j :: 0 <= j < i ==> decode(init[j].1).Ok?;
    var s := init + [last];
    assert s[i] == init[i];
    assert forall j :: 0 <= j < i ==> s[j] == init[j];
  }

  lemma FailureAtLast<V>(init: seq<(string, Node)>, last: (string, Node), decode: Node -> Result<V>, e: Error)
    requires forall i :: 0 <= i < |init| ==> decode(init[i].1).Ok?
    requires decode(last.1) == Err(e)
    ensures FirstFailure(init + [last], decode, e)
  {
    var s := init + [last];
    assert s[|init|] == last;
    assert forall j :: 0 <= j < |init| ==> s[j] == init[j];
  }

  lemma InsertLast<V>(init: seq<(string, Node)>, last: (string, Node), m: map<string, V>,
                      decode: Node -> Result<V>, v: V, m': map<string, V>)
    requires m' == m[last.0 := v]
    requires forall i :: 0 <= i < |init| ==> decode(init[i].1).Ok?
    requires forall k :: k in m <==> HasKey(init, k)
    requires forall k :: k in m ==> LastDecodedFrom(init, k, decode, m[k])
    requires decode(last.1) == Ok(v)
    ensures forall i :: 0 <= i < |init + [last]| ==> decode((init + [last])[i].1).Ok?
    ensures forall k :: k in m' <==> HasKey(init + [last], k)
    ensures forall k :: k in m' ==> LastDecodedFrom(init + [last], k, decode, m'[k])
  {
    var e := init + [last];
    assert forall i :: 0 <= i < |init| ==> e[i] == init[i];
    assert e[|init|] == last;
    forall k ensures k in m' <==> HasKey(e, k) {
      if HasKey(init, k) {
        var i :| 0 <= i < |init| && init[i].0 == k;
        assert e[i].0 == k;
      }
      if HasKey(e, k) && k != last.0 {
        var i :| 0 <= i < |e| && e[i].0 == k;
        assert init[i].0 == k;
      }
      if k == last.0 { assert e[|init|].0 == k; }
    }
    forall k | k in m' ensures LastDecodedFrom(e, k, decode, m'[k]) {
      if k == last.0 {
        assert e[|init|] == last;
      } else {
        var i :| 0 <= i < |init| && init[i].0 == k && decode(init[i].1) == Ok(m[k]) &&
                 forall j :: i < j < |init| ==> init[j].0 != k;
        assert e[i] == init[i];
        assert forall j :: i < j < |e| ==> e[j].0 != k;
      }
    }
  }

  /** One more entry whose value decodes is inserted over what came before. */
  lemma DecodeAppend<V>(init: seq<(string, Node)>, last: (string, Node), decode: Node -> Result<V>)
    requires DecodeMap(init, decode).Ok? && decode(last.1).Ok?
    ensures DecodeMap(init + [last], decode) == Ok(DecodeMap(init, decode).value[last.0 := decode(last.1).value])
  {
    var e := init + [last];
    assert e[..|e| - 1] == init;
  }

  /** Two entries whose values decode are inserted in order. */
  lemma DecodePair<V>(a: (string, Node), b: (string, Node), decode: Node -> Result<V>)
    requires decode(a.1).Ok? && decode(b.1).Ok?
    ensures DecodeMap([a, b], decode) == Ok(map[a.0 := decode(a.1).value][b.0 := decode(b.1).value])
  {
    DecodeAppend([], a, decode);
    assert [] + [a] == [a];
    DecodeAppend([a], b, decode);
    assert [a] + [b] == [a, b];
  }

  /** A map-shaped node, decoded; any other node is refused. */
  function DecodeMapNode<V>(n: Node, decode: Node -> Result<V>): (r: Result<map<string, V>>)
    ensures !n.Map? ==> r == Err(TypeMismatch("a map"))
    ensures r.Ok? ==> n.Map? && forall k :: k in r.value <==> HasKey(n.entries, k)
  {
    match n
    case Map(entries) => DecodeMap(entries, decode)
    case _ => Err(TypeMismatch("a map"))
  }

  lemma {:induction false} DecodeEntries<V>(ks: seq<string>, m: map<string, V>, encode: V -> Node, decode: Node -> Result<V>)
    requires forall k :: k in ks ==> k in m
    requires forall v :: decode(encode(v)) == Ok(v)
    ensures DecodeMap(Entries(ks, m, encode), decode) == Ok(map k | k in ks :: m[k])
    decreases |ks|
  {
    var e := Entries(ks, m, encode);
    if |ks| > 0 {
      var n := |ks| - 1;
      assert e[..n] == Entries(ks[..n], m, encode);
      DecodeEntries(ks[..n], m, encode, decode);
      assert e[n] == (ks[n], encode(m[ks[n]]));
      assert (map k | k in ks[..n] :: m[k])[ks[n] := m[ks[n]]] == map k | k in ks :: m[k] by {
        assert forall k :: k in ks <==> k in ks[..n] || k == ks[n] by {
          assert ks == ks[..n] + [ks[n]];
        }
      }
    } else {
      assert (map k | k in ks :: m[k]) == map[];
    }
  }

  /** Decoding undoes encoding, for any value codec that round-trips. */
  lemma MapRoundTrip<V>(m: map<string, V>, encode: V -> Node, decode: Node -> Result<V>)
    requires forall v :: decode(encode(v)) == Ok(v)
    ensures DecodeMapNode(EncodeMap(m, encode), decode) == Ok(m)
  {
    var ks := SortedKeys(m.Keys);
    DecodeEntries(ks, m, encode, decode);
    assert (map k | k in ks :: m[k]) == m;
  }
}
