/**
  `make_serializable_helper`, `make_serializable` and `serialize`: the
  converters that decode byte strings to text so that a dict can be handed to
  `json.dumps`. Modelled as written, including the cases in which the helper
  raises, and followed by a corrected helper (see the Findings in README.md).
 */
module Serializer {
  import opened Wrappers
  import opened PyValue
  import Utf8

  /** `len(x)` is defined: x is a str, bytes, list, tuple or dict. */
  predicate HasLen(x: Value) {
    !(x.Num? || x.Null?)
  }

  function Len(x: Value): nat
    requires HasLen(x)
  {
    match x
    case Str(s) => |s|
    case Bytes(b) => |b|
    case List(items) => |items|
    case Tuple(items) => |items|
    case Dict(entries) => |entries|
  }

  // ---------------------------------------------------------------------
  // make_serializable_helper, as a specification function
  // ---------------------------------------------------------------------

  /**
    What `make_serializable_helper(x)` returns or raises. Python only checks
    `len(x)`, then `isinstance(x, list)`, and treats everything else as a
    dict, so it is total over all values.
   */
  function Helper(x: Value): PyResult<Value>
    decreases x, 0
  {
    if !HasLen(x) then Err(TypeError)
    else if Len(x) == 0 then Ok(x)
    else match x
      case List(items) =>
        var converted :- HelperItems(items);
        Ok(List(converted))
      case Dict(entries) =>
        var converted :- HelperEntries(entries);
        Ok(Dict(converted))
      case _ => Err(AttributeError)
  }

  /** One element of a list: bytes are decoded, anything else goes back to the helper. */
  function ListElement(y: Value): PyResult<Value>
    decreases y, 1
  {
    if y.Bytes? then Decoded(y.b) else Helper(y)
  }

  /** The list branch: elements converted left to right, the first failure propagates. */
  function HelperItems(items: seq<Value>): PyResult<seq<Value>>
    decreases items, 0
  {
    if items == [] then Ok([])
    else
      var head :- ListElement(items[0]);
      var tail :- HelperItems(items[1..]);
      Ok([head] + tail)
  }

  /** The value a dict entry ends up with: containers recurse, bytes are decoded, the rest stays. */
  function EntryValue(p: (Value, Value)): PyResult<Value>
    decreases p, 1
  {
    if p.1.List? || p.1.Dict? then Helper(p.1)
    else if p.1.Bytes? then Decoded(p.1.b)
    else Ok(p.1)
  }

  /** The dict branch: each value overwritten under its own key, in insertion order. */
  function HelperEntries(entries: seq<(Value, Value)>): PyResult<seq<(Value, Value)>>
    decreases entries, 0
  {
    if entries == [] then Ok([])
    else
      var v :- EntryValue(entries[0]);
      var tail :- HelperEntries(entries[1..]);
      Ok([(entries[0].0, v)] + tail)
  }

  lemma {:induction false} HelperItemsConcat(a: seq<Value>, b: seq<Value>)
    ensures HelperItems(a + b) ==
      if HelperItems(a).Err? then HelperItems(a)
      else if HelperItems(b).Err? then HelperItems(b)
      else Ok(HelperItems(a).value + HelperItems(b).value)
  {
    if a == [] {
      assert a + b == b;
      assert HelperItems(b).Ok? ==> [] + HelperItems(b).value == HelperItems(b).value;
    } else {
      HelperItemsConcat(a[1..], b);
      assert (a + b)[0] == a[0] && (a + b)[1..] == a[1..] + b;
      if ListElement(a[0]).Ok? && HelperItems(a[1..]).Ok? && HelperItems(b).Ok? {
        var h, t, u := ListElement(a[0]).value, HelperItems(a[1..]).value, HelperItems(b).value;
        assert HelperItems(a + b) == Ok([h] + (t + u));
        assert [h] + (t + u) == ([h] + t) + u;
      }
    }
  }

  lemma {:induction false} HelperEntriesConcat(a: seq<(Value, Value)>, b: seq<(Value, Value)>)
    ensures HelperEntries(a + b) ==
      if HelperEntries(a).Err? then HelperEntries(a)
      else if HelperEntries(b).Err? then HelperEntries(b)
      else Ok(HelperEntries(a).value + HelperEntries(b).value)
  {
    if a == [] {
      assert a + b == b;
      assert HelperEntries(b).Ok? ==> [] + HelperEntries(b).value == HelperEntries(b).value;
    } else {
      HelperEntriesConcat(a[1..], b);
      assert (a + b)[0] == a[0] && (a + b)[1..] == a[1..] + b;
      if EntryValue(a[0]).Ok? && HelperEntries(a[1..]).Ok? && HelperEntries(b).Ok? {
        var h := (a[0].0, EntryValue(a[0]).value);
        var t, u := HelperEntries(a[1..]).value, HelperEntries(b).value;
        assert HelperEntries(a + b) == Ok([h] + (t + u));
        assert [h] + (t + u) == ([h] + t) + u;
      }
    }
  }

  lemma HelperItemsSingleton(y: Value)
    ensures HelperItems([y]) ==
      if ListElement(y).Err? then Err(ListElement(y).error) else Ok([ListElement(y).value])
  {
    assert [y][0] == y && [y][1..] == [];
    if ListElement(y).Ok? {
      assert [ListElement(y).value] + [] == [ListElement(y).value];
    }
  }

  /** One more element of the helper's loop over a list: a failure ends the whole list. */
  lemma HelperItemsStep(items: seq<Value>, i: nat, l: seq<Value>)
    requires i < |items| && HelperItems(items[..i]) == Ok(l)
    ensures ListElement(items[i]).Err? ==> HelperItems(items) == Err(ListElement(items[i]).error)
    ensures ListElement(items[i]).Ok? ==> HelperItems(items[..i + 1]) == Ok(l + [ListElement(items[i]).value])
  {
    var y := items[i];
    HelperItemsConcat(items[..i], [y]);
    assert items[..i + 1] == items[..i] + [y];
    HelperItemsSingleton(y);
    if ListElement(y).Err? {
      HelperItemsConcat(items[..i + 1], items[i + 1..]);
      assert items[..i + 1] + items[i + 1..] == items;
    }
  }

  /** One more entry of the helper's loop over a dict: a failure ends the whole dict. */
  lemma HelperEntriesStep(entries: seq<(Value, Value)>, i: nat, d: seq<(Value, Value)>)
    requires i < |entries| && HelperEntries(entries[..i]) == Ok(d)
    ensures EntryValue(entries[i]).Err? ==> HelperEntries(entries) == Err(EntryValue(entries[i]).error)
    ensures EntryValue(entries[i]).Ok? ==>
      HelperEntries(entries[..i + 1]) == Ok(d + [(entries[i].0, EntryValue(entries[i]).value)])
  {
    var p := entries[i];
    HelperEntriesConcat(entries[..i], [p]);
    assert entries[..i + 1] == entries[..i] + [p];
    HelperEntriesSingleton(p);
    if EntryValue(p).Err? {
      HelperEntriesConcat(entries[..i + 1], entries[i + 1..]);
      assert entries[..i + 1] + entries[i + 1..] == entries;
    }
  }

  lemma HelperEntriesSingleton(p: (Value, Value))
    ensures HelperEntries([p]) ==
      if EntryValue(p).Err? then Err(EntryValue(p).error) else Ok([(p.0, EntryValue(p).value)])
  {
    assert [p][0] == p && [p][1..] == [];
    if EntryValue(p).Ok? {
      assert [(p.0, EntryValue(p).value)] + [] == [(p.0, EntryValue(p).value)];
    }
  }

  /** The list branch element by element: same length and order, first failure wins. */
  lemma {:induction false} HelperItemsElementwise(items: seq<Value>)
    ensures HelperItems(items).Ok? <==> forall i | 0 <= i < |items| :: ListElement(items[i]).Ok?
    ensures HelperItems(items).Ok? ==>
      |HelperItems(items).value| == |items| &&
      forall i | 0 <= i < |items| :: HelperItems(items).value[i] == ListElement(items[i]).value
    ensures HelperItems(items).Err? ==>
      exists i | 0 <= i < |items| ::
        ListElement(items[i]) == Err(HelperItems(items).error) &&
        forall j | 0 <= j < i :: ListElement(items[j]).Ok?
  {
    if items != [] {
      HelperItemsElementwise(items[1..]);
      if ListElement(items[0]).Ok? && HelperItems(items[1..]).Err? {
        var i :| 0 <= i < |items[1..]| &&
          ListElement(items[1..][i]) == Err(HelperItems(items[1..]).error) &&
          forall j | 0 <= j < i :: ListElement(items[1..][j]).Ok?;
        assert ListElement(items[i + 1]) == Err(HelperItems(items).error);
        assert forall j | 0 <= j < i + 1 :: ListElement(items[j]).Ok? by {
          forall j | 0 <= j < i + 1 ensures ListElement(items[j]).Ok? {
            if j > 0 { assert items[j] == items[1..][j - 1]; }
          }
        }
      } else if HelperItems(items).Ok? {
        forall i | 0 <= i < |items| ensures ListElement(items[i]).Ok? {
          if i > 0 { assert items[i] == items[1..][i - 1]; }
        }
      }
    }
  }

  /** The dict branch entry by entry: same keys in the same order, first failure wins. */
  lemma {:induction false} HelperEntriesElementwise(entries: seq<(Value, Value)>)
    ensures HelperEntries(entries).Ok? <==> forall i | 0 <= i < |entries| :: EntryValue(entries[i]).Ok?
    ensures HelperEntries(entries).Ok? ==>
      |HelperEntries(entries).value| == |entries| &&
      forall i | 0 <= i < |entries| ::
        HelperEntries(entries).value[i] == (entries[i].0, EntryValue(entries[i]).value)
    ensures HelperEntries(entries).Err? ==>
      exists i | 0 <= i < |entries| ::
        EntryValue(entries[i]) == Err(HelperEntries(entries).error) &&
        forall j | 0 <= j < i :: EntryValue(entries[j]).Ok?
  {
    if entries != [] {
      HelperEntriesElementwise(entries[1..]);
      if EntryValue(entries[0]).Ok? && HelperEntries(entries[1..]).Err? {
        var i :| 0 <= i < |entries[1..]| &&
          EntryValue(entries[1..][i]) == Err(HelperEntries(entries[1..]).error) &&
          forall j | 0 <= j < i :: EntryValue(entries[1..][j]).Ok?;
        assert EntryValue(entries[i + 1]) == Err(HelperEntries(entries).error);
        assert forall j | 0 <= j < i + 1 :: EntryValue(entries[j]).Ok? by {
          forall j | 0 <= j < i + 1 ensures EntryValue(entries[j]).Ok? {
            if j > 0 { assert entries[j] == entries[1..][j - 1]; }
          }
        }
      } else if HelperEntries(entries).Ok? {
        forall i | 0 <= i < |entries| ensures EntryValue(entries[i]).Ok? {
          if i > 0 { assert entries[i] == entries[1..][i - 1]; }
        }
      }
    }
  }

  /** A list that is not empty: same length and order, bytes decoded, every other element recursed into. */
  lemma HelperOnList(items: seq<Value>)
    requires items != []
    ensures Helper(List(items)).Ok? <==> forall i | 0 <= i < |items| :: ListElement(items[i]).Ok?
    ensures Helper(List(items)).Ok? ==>
      var out := Helper(List(items)).value;
      out.List? && |out.items| == |items| &&
      forall i | 0 <= i < |items| ::
        if items[i].Bytes? then out.items[i] == Str(Utf8.Decode(items[i].b).value)
        else out.items[i] == Helper(items[i]).value
    ensures Helper(List(items)).Err? ==>
      exists i | 0 <= i < |items| ::
        ListElement(items[i]) == Err(Helper(List(items)).error) &&
        forall j | 0 <= j < i :: ListElement(items[j]).Ok?
  {
    HelperItemsElementwise(items);
  }

  /**
    A dict that is not empty: the same keys in the same order; list and dict
    values recursed into, bytes values decoded, all other values kept.
   */
  lemma HelperOnDict(entries: seq<(Value, Value)>)
    requires entries != []
    ensures Helper(Dict(entries)).Ok? <==> forall i | 0 <= i < |entries| :: EntryValue(entries[i]).Ok?
    ensures Helper(Dict(entries)).Ok? ==>
      var out := Helper(Dict(entries)).value;
      out.Dict? && |out.entries| == |entries| &&
      forall i | 0 <= i < |entries| ::
        var (k, v) := entries[i];
        out.entries[i].0 == k &&
        if v.List? || v.Dict? then out.entries[i].1 == Helper(v).value
        else if v.Bytes? then out.entries[i].1 == Str(Utf8.Decode(v.b).value)
        else out.entries[i].1 == v
    ensures Helper(Dict(entries)).Err? ==>
      exists i | 0 <= i < |entries| ::
        EntryValue(entries[i]) == Err(Helper(Dict(entries)).error) &&
        forall j | 0 <= j < i :: EntryValue(entries[j]).Ok?
  {
    HelperEntriesElementwise(entries);
  }

  /**
    What the helper does with anything else: `len` fails on None and numbers,
    empty values come back as they are, and a non-empty str, bytes or tuple
    reaches `.items()`, which it does not have.
   */
  lemma HelperOnOther(y: Value)
    ensures y.Null? || y.Num? ==> Helper(y) == Err(TypeError)
    ensures HasLen(y) && Len(y) == 0 ==> Helper(y) == Ok(y)
    ensures (y.Str? || y.Bytes? || y.Tuple?) && Len(y) > 0 ==> Helper(y) == Err(AttributeError)
  {
  }

  /** A list holding None, a number, or a non-empty str or tuple cannot be converted. */
  lemma ListWithScalarFails(items: seq<Value>, i: nat)
    requires i < |items|
    requires items[i].Null? || items[i].Num? || ((items[i].Str? || items[i].Tuple?) && Len(items[i]) > 0)
    ensures Helper(List(items)).Err?
  {
    HelperOnList(items);
    HelperOnOther(items[i]);
  }

  // ---------------------------------------------------------------------
  // make_serializable_helper, as the source runs it
  // ---------------------------------------------------------------------

  /**
    The helper as an imperative procedure: the list branch appends to a new
    list, the dict branch overwrites each value under its key while iterating.
   */
  method MakeSerializableHelper(x: Value) returns (r: PyResult<Value>)
    ensures r == Helper(x)
    decreases x
  {
    if !HasLen(x) {
      return Err(TypeError);
    }
    if Len(x) == 0 {
      return Ok(x);
    }
    match x {
      case List(items) =>
        var l: seq<Value> := [];
        for i := 0 to |items|
          invariant HelperItems(items[..i]) == Ok(l)
        {
          var y := items[i];
          var e: PyResult<Value>;
          if y.Bytes? {
            e := Decoded(y.b);
          } else {
            e := MakeSerializableHelper(y);
          }
          HelperItemsStep(items, i, l);
          if e.Err? {
            return Err(e.error);
          }
          l := l + [e.value];
        }
        assert items[..|items|] == items;
        return Ok(List(l));
      case Dict(entries) =>
        var d := entries;
        for i := 0 to |d|
          invariant |d| == |entries|
          invariant d[i..] == entries[i..]
          invariant HelperEntries(entries[..i]) == Ok(d[..i])
        {
          assert d[i] == entries[i];
          var k, v := entries[i].0, entries[i].1;
          var e: PyResult<Value>;
          if v.List? || v.Dict? {
            e := MakeSerializableHelper(v);
          } else if v.Bytes? {
            e := Decoded(v.b);
          } else {
            e := Ok(v);
          }
          assert e == EntryValue(entries[i]);
          HelperEntriesStep(entries, i, d[..i]);
          if e.Err? {
            return Err(e.error);
          }
          ghost var before := d;
          d := d[i := (k, e.value)];
          assert d[..i + 1] == d[..i] + [(k, e.value)];
          assert d[i + 1..] == before[i + 1..];
        }
        assert entries[..|d|] == entries && d[..|d|] == d;
        return Ok(Dict(d));
      case _ =>
        return Err(AttributeError);
    }
  }

  // ---------------------------------------------------------------------
  // make_serializable and serialize
  // ---------------------------------------------------------------------

  /**
    `make_serializable(arg)`: a str is kept, bytes are decoded, a dict goes to
    the helper, and anything else -- a top-level list or tuple included, with
    any bytes inside it -- is returned as it is.
   */
  function MakeSerializable(arg: Value): (r: PyResult<Value>)
    ensures arg.Bytes? ==> (r.Ok? <==> Utf8.Decodable(arg.b))
    ensures arg.Bytes? && r.Ok? ==> r.value == Str(Utf8.Decode(arg.b).value)
    ensures arg.Dict? && r.Ok? ==>
      r.value.Dict? && |r.value.entries| == |arg.entries| &&
      forall i | 0 <= i < |arg.entries| :: r.value.entries[i].0 == arg.entries[i].0
    ensures !arg.Bytes? && !arg.Dict? ==> r == Ok(arg)
  {
    match arg
    case Str(_) => Ok(arg)
    case Bytes(b) => Decoded(b)
    case Dict(entries) =>
      if entries == [] then Helper(arg)
      else HelperOnDict(entries); Helper(arg)
    case _ => Ok(arg)
  }

  /**
    `make_serializable` is not idempotent: a dict holding a list of bytes
    converts to a dict holding a list of str, and a second pass raises,
    because the helper calls `.items()` on the str.
   */
  lemma HelperNotIdempotent(k: Value, b: seq<Utf8.byte>)
    requires Utf8.Decodable(b) && b != []
    ensures
      var once := Dict([(k, List([Str(Utf8.Decode(b).value)]))]);
      MakeSerializable(Dict([(k, List([Bytes(b)]))])) == Ok(once) &&
      MakeSerializable(once) == Err(AttributeError)
  {
    var s := Utf8.Decode(b).value;
    assert |s| > 0;
    HelperItemsSingleton(Bytes(b));
    HelperItemsSingleton(Str(s));
    HelperEntriesSingleton((k, List([Bytes(b)])));
    HelperEntriesSingleton((k, List([Str(s)])));
  }

  /** `serialize(*args)`: each argument through make_serializable, collected into a tuple. */
  method Serialize(args: seq<Value>) returns (r: PyResult<Value>)
    ensures r.Ok? <==> forall i | 0 <= i < |args| :: MakeSerializable(args[i]).Ok?
    ensures r.Ok? ==>
      r.value.Tuple? && |r.value.items| == |args| &&
      forall i | 0 <= i < |args| :: r.value.items[i] == MakeSerializable(args[i]).value
    ensures r.Err? ==>
      exists i | 0 <= i < |args| ::
        MakeSerializable(args[i]) == Err(r.error) &&
        forall j | 0 <= j < i :: MakeSerializable(args[j]).Ok?
  {
    var ret: seq<Value> := [];
    for i := 0 to |args|
      invariant |ret| == i
      invariant forall j | 0 <= j < i :: MakeSerializable(args[j]).Ok? && ret[j] == MakeSerializable(args[j]).value
    {
      var c := MakeSerializable(args[i]);
      if c.Err? {
        return Err(c.error);
      }
      ret := ret + [c.value];
    }
    return Ok(Tuple(ret));
  }

  // ---------------------------------------------------------------------
  // The evidently intended converter (README.md, Findings)
  // ---------------------------------------------------------------------

  /**
    Not bytes itself, and no bytes among the list elements and dict values
    reached through lists and dicts. Dict keys and tuples are not looked into.
   */
  predicate Clean(v: Value) {
    match v
    case Bytes(_) => false
    case List(items) => forall i | 0 <= i < |items| :: Clean(items[i])
    case Dict(entries) => forall i | 0 <= i < |entries| :: Clean(entries[i].1)
    case _ => true
  }

  /** A bytes dict key is never decoded: only the value under it is looked at. */
  lemma BytesKeyKept(b: seq<Utf8.byte>, n: int)
    ensures MakeSerializable(Dict([(Bytes(b), Num(n))])) == Ok(Dict([(Bytes(b), Num(n))]))
  {
    var entries := [(Bytes(b), Num(n))];
    assert EntryValue(entries[0]) == Ok(Num(n));
    assert HelperEntries(entries[1..]) == Ok([]);
    assert [(entries[0].0, entries[0].1)] + [] == entries;
    assert HelperEntries(entries) == Ok(entries);
  }

  /** `make_serializable([b])` returns the list with the bytes still in it. */
  lemma TopLevelListKeepsBytes(b: seq<Utf8.byte>)
    ensures MakeSerializable(List([Bytes(b)])) == Ok(List([Bytes(b)]))
    ensures !Clean(MakeSerializable(List([Bytes(b)])).value)
  {
    assert List([Bytes(b)]).items[0] == Bytes(b);
  }

  /**
    The helper with the list branch treating its elements as the dict branch
    treats its values: elements that are neither bytes nor containers are kept.
    It succeeds wherever the helper as written does, with the same result.
   */
  function FixedHelper(x: Value): (r: PyResult<Value>)
    requires x.List? || x.Dict?
    ensures r.Ok? ==> Clean(r.value)
    ensures Clean(x) ==> r == Ok(x)
    ensures Helper(x).Ok? ==> r == Helper(x)
    ensures r.Err? ==> r.error == UnicodeDecodeError
    decreases x, 0
  {
    if x.List? then
      var c :- FixedItems(x.items);
      Ok(List(c))
    else
      var c :- FixedEntries(x.entries);
      Ok(Dict(c))
  }

  function FixedElement(y: Value): (r: PyResult<Value>)
    ensures r.Ok? ==> Clean(r.value)
    ensures Clean(y) ==> r == Ok(y)
    ensures ListElement(y).Ok? ==> r == ListElement(y)
    ensures r.Err? ==> r.error == UnicodeDecodeError
    decreases y, 1
  {
    if y.Bytes? then Decoded(y.b)
    else if y.List? || y.Dict? then FixedHelper(y)
    else Ok(y)
  }

  function FixedItems(items: seq<Value>): (r: PyResult<seq<Value>>)
    ensures r.Ok? <==> forall i | 0 <= i < |items| :: FixedElement(items[i]).Ok?
    ensures r.Ok? ==>
      |r.value| == |items| &&
      forall i | 0 <= i < |items| :: r.value[i] == FixedElement(items[i]).value && Clean(r.value[i])
    ensures (forall i | 0 <= i < |items| :: Clean(items[i])) ==> r == Ok(items)
    ensures HelperItems(items).Ok? ==> r == HelperItems(items)
    ensures r.Err? ==> r.error == UnicodeDecodeError
    decreases items, 0
  {
    if items == [] then Ok([])
    else
      assert forall i | 1 <= i < |items| :: items[i] == items[1..][i - 1];
      var head :- FixedElement(items[0]);
      var tail :- FixedItems(items[1..]);
      assert items == [items[0]] + items[1..];
      Ok([head] + tail)
  }

  /** The corrected dict branch treats a value exactly as the corrected list branch treats an element. */
  function FixedEntryValue(p: (Value, Value)): (r: PyResult<Value>)
    ensures r.Ok? ==> Clean(r.value)
    ensures Clean(p.1) ==> r == Ok(p.1)
    ensures EntryValue(p).Ok? ==> r == EntryValue(p)
    ensures r.Err? ==> r.error == UnicodeDecodeError
    decreases p, 2
  {
    FixedElement(p.1)
  }

  function FixedEntries(entries: seq<(Value, Value)>): (r: PyResult<seq<(Value, Value)>>)
    ensures r.Ok? <==> forall i | 0 <= i < |entries| :: FixedEntryValue(entries[i]).Ok?
    ensures r.Ok? ==>
      |r.value| == |entries| &&
      forall i | 0 <= i < |entries| ::
        r.value[i] == (entries[i].0, FixedEntryValue(entries[i]).value) && Clean(r.value[i].1)
    ensures (forall i | 0 <= i < |entries| :: Clean(entries[i].1)) ==> r == Ok(entries)
    ensures HelperEntries(entries).Ok? ==> r == HelperEntries(entries)
    ensures r.Err? ==> r.error == UnicodeDecodeError
    decreases entries, 0
  {
    if entries == [] then Ok([])
    else
      assert forall i | 1 <= i < |entries| :: entries[i] == entries[1..][i - 1];
      var v :- FixedEntryValue(entries[0]);
      var tail :- FixedEntries(entries[1..]);
      var res := [(entries[0].0, v)] + tail;
      assert forall i | 1 <= i < |entries| :: res[i] == tail[i - 1];
      assert entries == [entries[0]] + entries[1..];
      Ok(res)
  }

  /** make_serializable with the corrected helper, which also receives top-level lists. */
  function MakeSerializableFixed(arg: Value): (r: PyResult<Value>)
    ensures r.Ok? ==> Clean(r.value)
    ensures Clean(arg) ==> r == Ok(arg)
    ensures r.Err? ==> r.error == UnicodeDecodeError
    ensures !arg.List? && MakeSerializable(arg).Ok? ==> r == MakeSerializable(arg)
  {
    match arg
    case Bytes(b) => Decoded(b)
    case List(_) => FixedHelper(arg)
    case Dict(_) => FixedHelper(arg)
    case _ => Ok(arg)
  }

  /** The corrected converter is idempotent: a second pass changes nothing and raises nothing. */
  lemma FixedIdempotent(arg: Value)
    requires MakeSerializableFixed(arg).Ok?
    ensures MakeSerializableFixed(MakeSerializableFixed(arg).value) == MakeSerializableFixed(arg)
  {
  }
}
