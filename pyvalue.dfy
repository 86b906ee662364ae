/**
  The Python values both utilities work on: the trees that `json` and
  `yaml.safe_load` produce, plus byte strings and tuples. A dict is kept as
  its insertion-ordered list of (key, value) entries, so that key order and
  key collisions can be stated.
 */
module PyValue {
  import opened Wrappers
  import Utf8

  datatype Value =
    | Str(s: string)
    | Bytes(b: seq<Utf8.byte>)
    | Num(n: int)
    | Null
    | List(items: seq<Value>)
    | Tuple(items: seq<Value>)
    | Dict(entries: seq<(Value, Value)>)

  /** The exceptions the modelled code can raise. */
  datatype Error =
    | UnicodeDecodeError  // bytes.decode() on bytes that are not UTF-8
    | TypeError           // len() of None or of a number
    | AttributeError      // .items() on something that is not a dict

  type PyResult<T> = Result<T, Error>

  /** No key occurs twice, as in every Python dict. */
  predicate DistinctKeys(entries: seq<(Value, Value)>) {
    forall i, j | 0 <= i < j < |entries| :: entries[i].0 != entries[j].0
  }

  /**
    `b.decode()` for a byte string `b`: the text whose UTF-8 encoding is `b`,
    or UnicodeDecodeError when there is none.
   */
  function Decoded(b: seq<Utf8.byte>): (r: PyResult<Value>)
    ensures r.Ok? <==> Utf8.Decodable(b)
    ensures r.Ok? ==> r.value == Str(Utf8.Decode(b).value)
    ensures r.Err? ==> r.error == UnicodeDecodeError
  {
    match Utf8.Decode(b)
    case Some(text) => Ok(Str(text))
    case None => Err(UnicodeDecodeError)
  }

  /**
    `b.decode()` succeeds exactly when `b` is the UTF-8 encoding of some text,
    and then returns that text.
   */
  lemma DecodedInvertsEncode(b: seq<Utf8.byte>)
    ensures Decoded(b).Ok? <==> exists t :: Utf8.Encode(t) == b
    ensures forall t | Utf8.Encode(t) == b :: Decoded(b) == Ok(Str(t))
  {
    if Decoded(b).Ok? {
      Utf8.EncodeDecode(b);
    }
    forall t | Utf8.Encode(t) == b ensures Decoded(b) == Ok(Str(t)) {
      Utf8.DecodeEncode(t);
    }
  }
}
