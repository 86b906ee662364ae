/**
  `convert`: the fully recursive variant that decodes byte strings
  everywhere, dict keys included, and rebuilds every dict, list and tuple.
 */
module Converter {
  import opened Wrappers
  import opened PyValue
  import Utf8
  import Serializer

  // ---------------------------------------------------------------------
  // dict(pairs)
  // ---------------------------------------------------------------------

  /** The index of the entry with key `k`, or -1 when there is none. */
  function IndexOf(d: seq<(Value, Value)>, k: Value): (i: int)
    ensures -1 <= i < |d|
    ensures 0 <= i ==> d[i].0 == k
    ensures i < 0 ==> forall j | 0 <= j < |d| :: d[j].0 != k
  {
    if d == [] then -1
    else if d[0].0 == k then 0
    else
      var j := IndexOf(d[1..], k);
      assert forall m | 1 <= m < |d| :: d[m] == d[1..][m - 1];
      if j < 0 then -1 else j + 1
  }

  /**
    One step of `dict(pairs)`: a pair whose key is already present overwrites
    that entry's value where it stands; a new key is appended at the end.
   */
  function Insert(d: seq<(Value, Value)>, p: (Value, Value)): (r: seq<(Value, Value)>)
    requires DistinctKeys(d)
    ensures DistinctKeys(r)
    ensures p in r
    ensures forall q | q in r :: q == p || q in d
    ensures forall q | q in d && q.0 != p.0 :: q in r
    ensures |r| <= |d| + 1
    ensures (forall i | 0 <= i < |d| :: d[i].0 != p.0) ==> r == d + [p]
    ensures forall i | 0 <= i < |d| && d[i].0 == p.0 ::
      |r| == |d| && r[i] == p && forall j | 0 <= j < |d| && j != i :: r[j] == d[j]
  {
    var i := IndexOf(d, p.0);
    if i < 0 then
      d + [p]
    else
      var r := d[i := p];
      assert r[i] == p;
      assert forall j | 0 <= j < |d| && j != i :: r[j] == d[j];
      assert forall k | 0 <= k < |d| && d[k].0 == p.0 :: k == i;
      r
  }

  /**
    `dict(pairs)`: one entry per distinct key, holding the value of the last
    pair with that key.
   */
  function FromPairs(ps: seq<(Value, Value)>): (r: seq<(Value, Value)>)
    ensures DistinctKeys(r)
    ensures |r| <= |ps|
    ensures forall q | q in r :: q in ps
    ensures forall j | 0 <= j < |ps| && (forall j' | j < j' < |ps| :: ps[j'].0 != ps[j].0) :: ps[j] in r
  {
    if ps == [] then []
    else
      var init, p := ps[..|ps| - 1], ps[|ps| - 1];
      assert ps == init + [p];
      assert forall j | 0 <= j < |init| :: init[j] == ps[j];
      Insert(FromPairs(init), p)
  }

  /** Pairs whose keys are already distinct make the dict with exactly those entries, in order. */
  lemma {:induction false} FromDistinctPairs(ps: seq<(Value, Value)>)
    requires DistinctKeys(ps)
    ensures FromPairs(ps) == ps
  {
    if ps != [] {
      var init, p := ps[..|ps| - 1], ps[|ps| - 1];
      assert ps == init + [p];
      FromDistinctPairs(init);
      assert forall i | 0 <= i < |init| :: init[i].0 != p.0 by {
        forall i | 0 <= i < |init| ensures init[i].0 != p.0 {
          assert init[i] == ps[i];
        }
      }
    }
  }

  // ---------------------------------------------------------------------
  // Properties of value trees
  // ---------------------------------------------------------------------

  /** Every byte string in the tree, keys included, is valid UTF-8. */
  predicate AllDecodable(v: Value) {
    match v
    case Bytes(b) => Utf8.Decodable(b)
    case List(items) => forall i | 0 <= i < |items| :: AllDecodable(items[i])
    case Tuple(items) => forall i | 0 <= i < |items| :: AllDecodable(items[i])
    case Dict(entries) =>
      forall i | 0 <= i < |entries| :: AllDecodable(entries[i].0) && AllDecodable(entries[i].1)
    case _ => true
  }

  /** No byte string anywhere in the tree, keys included. */
  predicate ByteFree(v: Value) {
    match v
    case Bytes(_) => false
    case List(items) => forall i | 0 <= i < |items| :: ByteFree(items[i])
    case Tuple(items) => forall i | 0 <= i < |items| :: ByteFree(items[i])
    case Dict(entries) =>
      forall i | 0 <= i < |entries| :: ByteFree(entries[i].0) && ByteFree(entries[i].1)
    case _ => true
  }

  /** Every dict in the tree has distinct keys, as a Python dict does. */
  predicate WellKeyed(v: Value) {
    match v
    case List(items) => forall i | 0 <= i < |items| :: WellKeyed(items[i])
    case Tuple(items) => forall i | 0 <= i < |items| :: WellKeyed(items[i])
    case Dict(entries) =>
      DistinctKeys(entries) &&
      forall i | 0 <= i < |entries| :: WellKeyed(entries[i].0) && WellKeyed(entries[i].1)
    case _ => true
  }

  /** Both halves of a dict entry are byte-free and well-keyed. */
  predicate CleanPair(p: (Value, Value)) {
    ByteFree(p.0) && ByteFree(p.1) && WellKeyed(p.0) && WellKeyed(p.1)
  }

  /** A dict built from clean pairs is byte-free and well-keyed. */
  lemma FromCleanPairs(ps: seq<(Value, Value)>)
    requires forall i | 0 <= i < |ps| :: CleanPair(ps[i])
    ensures ByteFree(Dict(FromPairs(ps))) && WellKeyed(Dict(FromPairs(ps)))
  {
    var d := FromPairs(ps);
    forall i | 0 <= i < |d| ensures CleanPair(d[i]) {
      assert d[i] in ps;
    }
  }

  // ---------------------------------------------------------------------
  // convert
  // ---------------------------------------------------------------------

  /**
    `convert(data)`. It fails exactly when some byte string in the tree is
    not UTF-8; otherwise its result holds no bytes and well-keyed dicts.
   */
  function Convert(v: Value): (r: PyResult<Value>)
    ensures r.Ok? <==> AllDecodable(v)
    ensures r.Ok? ==> ByteFree(r.value) && WellKeyed(r.value)
    ensures r.Err? ==> r.error == UnicodeDecodeError
    decreases v, 0
  {
    match v
    case Bytes(b) => Decoded(b)
    case Dict(entries) =>
      var ps :- ConvertPairs(entries);
      FromCleanPairs(ps);
      Ok(Dict(FromPairs(ps)))
    case Tuple(items) =>
      var xs :- ConvertItems(items);
      Ok(Tuple(xs))
    case List(items) =>
      var xs :- ConvertItems(items);
      Ok(List(xs))
    case _ => Ok(v)
  }

  /** `map(convert, items)`, consumed by `list(...)` or `tuple(...)`. */
  function ConvertItems(items: seq<Value>): (r: PyResult<seq<Value>>)
    ensures r.Ok? <==> forall i | 0 <= i < |items| :: AllDecodable(items[i])
    ensures r.Ok? ==>
      |r.value| == |items| &&
      forall i | 0 <= i < |items| :: r.value[i] == Convert(items[i]).value
    ensures r.Err? ==> r.error == UnicodeDecodeError
    decreases items, 0
  {
    if items == [] then Ok([])
    else
      assert forall i | 1 <= i < |items| :: items[i] == items[1..][i - 1];
      var head :- Convert(items[0]);
      var tail :- ConvertItems(items[1..]);
      Ok([head] + tail)
  }

  /** `convert` of one dict item: the item is the tuple (key, value), so both are converted. */
  function ConvertPair(p: (Value, Value)): (r: PyResult<(Value, Value)>)
    ensures r.Ok? <==> AllDecodable(p.0) && AllDecodable(p.1)
    ensures r.Ok? ==> r.value == (Convert(p.0).value, Convert(p.1).value) && CleanPair(r.value)
    ensures r.Err? ==> r.error == UnicodeDecodeError
    decreases p, 1
  {
    var k :- Convert(p.0);
    var v :- Convert(p.1);
    Ok((k, v))
  }

  /** `map(convert, data.items())`. */
  function ConvertPairs(entries: seq<(Value, Value)>): (r: PyResult<seq<(Value, Value)>>)
    ensures r.Ok? <==>
      forall i | 0 <= i < |entries| :: AllDecodable(entries[i].0) && AllDecodable(entries[i].1)
    ensures r.Ok? ==>
      |r.value| == |entries| &&
      forall i | 0 <= i < |entries| :: r.value[i] == ConvertPair(entries[i]).value && CleanPair(r.value[i])
    ensures r.Err? ==> r.error == UnicodeDecodeError
    decreases entries, 0
  {
    if entries == [] then Ok([])
    else
      assert forall i | 1 <= i < |entries| :: entries[i] == entries[1..][i - 1];
      var head :- ConvertPair(entries[0]);
      var tail :- ConvertPairs(entries[1..]);
      Ok([head] + tail)
  }

  // ---------------------------------------------------------------------
  // Properties of convert
  // ---------------------------------------------------------------------

  /**
    Bytes are decoded; lists and tuples keep their kind, length and order,
    element by element; a dict becomes the dict of its converted items; every
    other value is returned unchanged.
   */
  lemma ConvertShape(v: Value)
    requires AllDecodable(v)
    ensures v.Bytes? ==> Convert(v) == Ok(Str(Utf8.Decode(v.b).value))
    ensures v.List? || v.Tuple? ==>
      var r := Convert(v).value;
      r.List? == v.List? && r.Tuple? == v.Tuple? && |r.items| == |v.items| &&
      forall i | 0 <= i < |v.items| :: r.items[i] == Convert(v.items[i]).value
    ensures v.Dict? ==>
      var r := Convert(v).value;
      r.Dict? && |r.entries| <= |v.entries| &&
      forall q | q in r.entries ::
        exists j | 0 <= j < |v.entries| :: q == (Convert(v.entries[j].0).value, Convert(v.entries[j].1).value)
    ensures v.Str? || v.Num? || v.Null? ==> Convert(v) == Ok(v)
  {
    if v.Dict? {
      var ps := ConvertPairs(v.entries).value;
      forall q | q in FromPairs(ps)
        ensures exists j | 0 <= j < |v.entries| :: q == (Convert(v.entries[j].0).value, Convert(v.entries[j].1).value)
      {
        var j :| 0 <= j < |ps| && ps[j] == q;
        assert q == ConvertPair(v.entries[j]).value;
      }
    }
  }

  /**
    When several keys convert to the same text, the entry that survives holds
    the value of the last of them: the value of an item is kept whenever no
    later item's key converts to the same key.
   */
  lemma ConvertKeepsLastValue(entries: seq<(Value, Value)>, j: nat)
    requires AllDecodable(Dict(entries))
    requires j < |entries|
    requires forall j' | j < j' < |entries| :: Convert(entries[j'].0) != Convert(entries[j].0)
    ensures (Convert(entries[j].0).value, Convert(entries[j].1).value) in Convert(Dict(entries)).value.entries
  {
    var ps := ConvertPairs(entries).value;
    assert ps[j] == ConvertPair(entries[j]).value;
    forall j' | j < j' < |ps| ensures ps[j'].0 != ps[j].0 {
      assert ps[j'] == ConvertPair(entries[j']).value;
    }
  }

  /** `convert({"a": 1, b"a": 2})` is `{"a": 2}`: the later value wins and an entry is lost. */
  lemma ConvertMergesCollidingKeys()
    ensures Convert(Dict([(Str("a"), Num(1)), (Bytes([0x61]), Num(2))])) == Ok(Dict([(Str("a"), Num(2))]))
  {
    var entries := [(Str("a"), Num(1)), (Bytes([0x61]), Num(2))];
    AsciiKeyConverted();
    assert Convert(Str("a")) == Ok(Str("a")) && Convert(Num(1)) == Ok(Num(1)) && Convert(Num(2)) == Ok(Num(2));
    assert AllDecodable(Dict(entries)) by {
      assert AllDecodable(entries[0].0) && AllDecodable(entries[0].1);
      assert AllDecodable(entries[1].0) && AllDecodable(entries[1].1);
    }
    ConvertKeepsLastValue(entries, 1);
    SharedKey(entries, Str("a"));
    var r := Convert(Dict(entries)).value.entries;
    OnlyEntry(r, Str("a"), (Str("a"), Num(2)));
  }

  /** When every key converts to `k`, every entry of the converted dict has key `k`. */
  lemma SharedKey(entries: seq<(Value, Value)>, k: Value)
    requires AllDecodable(Dict(entries))
    requires forall j | 0 <= j < |entries| :: Convert(entries[j].0) == Ok(k)
    ensures forall q | q in Convert(Dict(entries)).value.entries :: q.0 == k
  {
    var ps := ConvertPairs(entries).value;
    forall q | q in Convert(Dict(entries)).value.entries ensures q.0 == k {
      var j :| 0 <= j < |ps| && ps[j] == q;
      assert q == ConvertPair(entries[j]).value;
    }
  }

  /** A dict whose entries all share one key has that one entry only. */
  lemma OnlyEntry(r: seq<(Value, Value)>, k: Value, a: (Value, Value))
    requires DistinctKeys(r) && a in r
    requires forall q | q in r :: q.0 == k
    ensures r == [a]
  {
    var i :| 0 <= i < |r| && r[i] == a;
    forall j | 0 <= j < |r| ensures r[j] == a {
      assert r[j] in r;
    }
    assert r[0] == r[|r| - 1];
  }

  /** `convert(b"a")` is `"a"`. */
  lemma AsciiKeyConverted()
    ensures Convert(Bytes([0x61])) == Ok(Str("a"))
  {
    Utf8.AsciiDecodes([0x61]);
    assert Utf8.Decode([0x61]).value == "a";
  }

  /** `convert` is the identity on trees without bytes whose dicts have distinct keys. */
  lemma {:induction false} ConvertIdentity(v: Value)
    requires ByteFree(v) && WellKeyed(v)
    ensures Convert(v) == Ok(v)
    decreases v, 0
  {
    match v
    case List(items) =>
      ItemsIdentity(items);
    case Tuple(items) =>
      ItemsIdentity(items);
    case Dict(entries) =>
      forall i | 0 <= i < |entries| ensures ConvertPair(entries[i]) == Ok(entries[i]) {
        PairIdentity(entries[i]);
      }
      assert ConvertPairs(entries).value == entries;
      FromDistinctPairs(entries);
    case _ =>
  }

  lemma {:induction false} ItemsIdentity(items: seq<Value>)
    requires forall i | 0 <= i < |items| :: ByteFree(items[i]) && WellKeyed(items[i])
    ensures ConvertItems(items) == Ok(items)
    decreases items, 1
  {
    forall i | 0 <= i < |items| ensures Convert(items[i]) == Ok(items[i]) {
      ConvertIdentity(items[i]);
    }
    assert ConvertItems(items).value == items;
  }

  lemma {:induction false} PairIdentity(p: (Value, Value))
    requires CleanPair(p)
    ensures ConvertPair(p) == Ok(p)
    decreases p, 1
  {
    ConvertIdentity(p.0);
    ConvertIdentity(p.1);
  }

  /** Converting the output of `convert` again changes nothing. */
  lemma ConvertIdempotent(v: Value)
    requires Convert(v).Ok?
    ensures Convert(Convert(v).value) == Convert(v)
  {
    ConvertIdentity(Convert(v).value);
  }

  /** A dict item is converted exactly as `convert` converts the 2-tuple (key, value). */
  lemma ConvertPairIsTupleBranch(p: (Value, Value))
    ensures ConvertPair(p).Ok? <==> Convert(Tuple([p.0, p.1])).Ok?
    ensures ConvertPair(p).Ok? ==>
      Convert(Tuple([p.0, p.1])).value == Tuple([ConvertPair(p).value.0, ConvertPair(p).value.1])
  {
    var t := [p.0, p.1];
    assert t[0] == p.0 && t[1] == p.1;
    if ConvertPair(p).Ok? {
      var xs := ConvertItems(t).value;
      assert xs == [xs[0], xs[1]];
    }
  }

  // ---------------------------------------------------------------------
  // convert against make_serializable
  // ---------------------------------------------------------------------

  /**
    Bytes occur only where `make_serializable_helper` looks for them: as list
    elements and dict values reached through lists and dicts, never in a key
    or inside a tuple.
   */
  predicate HelperShaped(v: Value) {
    match v
    case Bytes(_) => true
    case List(items) => forall i | 0 <= i < |items| :: HelperShaped(items[i])
    case Dict(entries) => forall i | 0 <= i < |entries| :: ByteFree(entries[i].0) && HelperShaped(entries[i].1)
    case _ => ByteFree(v)
  }

  lemma {:induction false} ElementAgrees(y: Value)
    requires HelperShaped(y) && WellKeyed(y) && Serializer.FixedElement(y).Ok?
    ensures Convert(y) == Serializer.FixedElement(y)
    decreases y, 1
  {
    if y.List? || y.Dict? {
      FixedAgrees(y);
    } else if !y.Bytes? {
      ConvertIdentity(y);
    }
  }

  lemma {:induction false} FixedAgrees(x: Value)
    requires x.List? || x.Dict?
    requires HelperShaped(x) && WellKeyed(x) && Serializer.FixedHelper(x).Ok?
    ensures Convert(x) == Serializer.FixedHelper(x)
    decreases x, 0
  {
    match x
    case List(items) =>
      forall i | 0 <= i < |items| ensures Convert(items[i]) == Serializer.FixedElement(items[i]) {
        ElementAgrees(items[i]);
      }
      assert ConvertItems(items).value == Serializer.FixedItems(items).value;
    case Dict(entries) =>
      var fixed := Serializer.FixedEntries(entries).value;
      forall i | 0 <= i < |entries| ensures ConvertPair(entries[i]) == Ok(fixed[i]) {
        ConvertIdentity(entries[i].0);
        ElementAgrees(entries[i].1);
      }
      assert ConvertPairs(entries).value == fixed;
      assert DistinctKeys(fixed);
      FromDistinctPairs(fixed);
  }

  /**
    Without that condition they can disagree: a byte string inside a tuple is
    left alone by `make_serializable` and decoded by `convert`.
   */
  lemma ConvertersDisagreeOnTupledBytes()
    ensures Serializer.MakeSerializable(Dict([(Str("k"), Tuple([Bytes([0x61])]))])) ==
      Ok(Dict([(Str("k"), Tuple([Bytes([0x61])]))]))
    ensures Convert(Dict([(Str("k"), Tuple([Bytes([0x61])]))])) ==
      Ok(Dict([(Str("k"), Tuple([Str("a")]))]))
  {
    var entries := [(Str("k"), Tuple([Bytes([0x61])]))];
    assert Serializer.EntryValue(entries[0]) == Ok(entries[0].1);
    assert Serializer.HelperEntries(entries[1..]) == Ok([]);
    assert [(entries[0].0, entries[0].1)] + [] == entries;
    assert Serializer.HelperEntries(entries) == Ok(entries);
    AsciiKeyConverted();
    var items := [Bytes([0x61])];
    assert ConvertItems(items[1..]) == Ok([]);
    assert [Str("a")] + [] == [Str("a")];
    assert ConvertItems(items) == Ok([Str("a")]);
    assert Convert(Str("k")) == Ok(Str("k"));
    assert AllDecodable(Dict(entries)) by {
      assert AllDecodable(entries[0].0) && AllDecodable(entries[0].1);
    }
    ConvertKeepsLastValue(entries, 0);
    SharedKey(entries, Str("k"));
    OnlyEntry(Convert(Dict(entries)).value.entries, Str("k"), (Str("k"), Tuple([Str("a")])));
  }

  /**
    The two converters agree on a dict whose bytes all sit where the helper
    looks for them, whenever `make_serializable` succeeds on it.
   */
  lemma ConvertersAgree(x: Value)
    requires x.Dict? && HelperShaped(x) && WellKeyed(x)
    requires Serializer.MakeSerializable(x).Ok?
    ensures Convert(x) == Serializer.MakeSerializable(x)
  {
    FixedAgrees(x);
  }
}
