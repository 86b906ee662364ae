# Byte-string sanitiser and workflow key scanner, in Dafny

This project models the two small utilities of the repository and proves
properties of them.

* **The byte-string sanitiser** (`src/make_serializable.py`) decodes
  `bytes` to `str` so that a nested structure can be given to `json.dumps`.
  It has two converters.
  - `make_serializable`, with `make_serializable_helper` and the variadic
    `serialize`, decodes bytes held as list elements and dict values. It
    descends only through dicts and lists, starting from a top-level dict.
  - `convert` decodes bytes everywhere, dict keys included, and rebuilds every
    dict, list and tuple.
* **The workflow scanner** (`src/gha.py`) reports whether any GitHub Actions
  workflow file of the repository contains the key `VERACODE` at any depth of
  its parsed YAML tree.

Python values are the datatype `PyValue.Value`: str, bytes, numbers, None,
lists, tuples, and dicts. A dict is kept as its insertion-ordered sequence of
(key, value) entries. A Python exception is the `Err` side of a `Result`,
with the exception kind as an `Error` (`UnicodeDecodeError`, `TypeError`,
`AttributeError`).

`bytes.decode()` is modelled by `Utf8.Decode`. It is a strict UTF-8 decoder
that accepts exactly the well-formed sequences of section 4 of RFC 3629.

Files:

* `wrappers.dfy` holds Option and Result.
* `utf8.dfy` holds the decoder and the encoder it is proved against.
* `pyvalue.dfy` holds the value tree and the error kinds.
* `serializer.dfy` holds `make_serializable_helper`, `make_serializable` and
  `serialize`, plus the corrected helper described under Findings.
* `converter.dfy` holds `convert`.
* `workflow.dfy` holds `gha.py`.

The source's shape is kept where it matters:

* `Serializer.MakeSerializableHelper` is an imperative method. Its list branch
  appends to a new list. Its dict branch overwrites each value under its key
  while iterating. It is proved equal to the specification function
  `Serializer.Helper`, and the helper's properties are proved as lemmas about
  that function.
* `Serializer.Serialize` and `Workflow.Run` are loops, as in the source.
  `Run` breaks at the first match.
* `make_serializable`, `convert` and `contains_key` are recursive functions.

The docstrings of `make_serializable_helper`, `make_serializable` and
`serialize` (`src/make_serializable.py:17-18`, `39-40` and `53-55`) promise
the "JSON serializable equivalent" of the argument. The code falls short of
that in these places:

* A list element that is not bytes is handed back to the helper, so a
  non-empty str, a non-empty tuple, None or a number in a list raises
  (`Serializer.ListWithScalarFails`). One consequence is that converting an
  already converted value can raise: `Serializer.HelperNotIdempotent`.
* A top-level list is returned unchanged, bytes included:
  `Serializer.TopLevelListKeepsBytes`.
* A bytes dict key is never decoded, because only the value under each key is
  overwritten: `Serializer.BytesKeyKept`.
* Bytes inside a tuple are kept, because a tuple value is left as it is:
  `Converter.ConvertersDisagreeOnTupledBytes`.

The first two are recorded under Findings, with a corrected converter. The
last two are left as they are by that corrected converter too: its
`Serializer.Clean` does not look into dict keys or tuples.

`convert` decodes bytes in more places than the helper does (dict keys, tuple
elements). `Converter.ConvertersAgree` gives a sufficient condition for the two
converters to return the same result: every byte string sits where the helper
looks for it, and `make_serializable` succeeds.
`Converter.ConvertersDisagreeOnTupledBytes` shows that without the condition
they differ.

`bytes.decode()` is `PyValue.Decoded`, an adapter over `Utf8.Decode`. The
decoder is tied to an independent encoder, `Utf8.Encode`, by round-trip
lemmas in both directions.

## Model

| member | source | states |
|---|---|---|
| `Utf8.DecodeEncode` | src/make_serializable.py:26 | decoding the UTF-8 encoding of any text gives back that text |
| `Utf8.EncodeDecode` | src/make_serializable.py:26 | a byte string that decodes is exactly the UTF-8 encoding of the text it decodes to |
| `Utf8.AsciiDecodes` | src/make_serializable.py:26 | bytes below 0x80 decode one-for-one to the characters with the same code |
| `Utf8.ForbiddenByteRejected` | src/make_serializable.py:26 | a byte string holding 0xC0, 0xC1 or any byte from 0xF5 up never decodes |
| `PyValue.DecodedInvertsEncode` | src/make_serializable.py:26 | `b.decode()` succeeds exactly when `b` is the UTF-8 encoding of some text, and then returns that text as a str |
| `Serializer.HelperItemsElementwise` | src/make_serializable.py:22-29 | the list loop succeeds iff every element converts; the result has the input's length and holds each element's conversion at the same index; on failure the error is that of the first failing element |
| `Serializer.HelperEntriesElementwise` | src/make_serializable.py:30-35 | the dict loop succeeds iff every entry's value converts; the result keeps every key at its index and stores the converted value under it; on failure the error is that of the first failing entry |
| `Serializer.HelperOnList` | src/make_serializable.py:20-29 | for a non-empty list, the helper returns a list of the same length and order: bytes elements are decoded, every other element goes through the helper; it fails iff some element fails, with the first failure's error |
| `Serializer.HelperOnDict` | src/make_serializable.py:30-35 | for a non-empty dict, the helper keeps the same keys in the same order; list and dict values are converted recursively, bytes values are decoded, all other values (str, None, numbers, tuples) are kept |
| `Serializer.HelperOnOther` | src/make_serializable.py:20-30 | `len` raises TypeError on None and numbers; an empty str, bytes, list, tuple or dict is returned as it is; a non-empty str, bytes or tuple raises AttributeError at `.items()` |
| `Serializer.ListWithScalarFails` | src/make_serializable.py:24-30 | a list holding None, a number, or a non-empty str or tuple makes the helper raise |
| `Serializer.MakeSerializableHelper` | src/make_serializable.py:16-35 | the append loop and the in-place overwrite loop return exactly what the helper specifies, including which exception is raised |
| `Serializer.MakeSerializable` | src/make_serializable.py:38-49 | bytes are decoded, and that succeeds iff they are UTF-8; a dict keeps its keys in order; a str and every other value, including a top-level list or tuple, is returned unchanged |
| `Serializer.HelperNotIdempotent` | src/make_serializable.py:24-30 | for a non-empty UTF-8 byte string `b`, `{k: [b]}` converts to `{k: [b.decode()]}`, and converting that again raises AttributeError |
| `Serializer.Serialize` | src/make_serializable.py:52-59 | the result is a tuple with one component per argument, in order, the i-th being `make_serializable(args[i])`; it fails iff some argument fails, with the first failure's error |
| `Serializer.BytesKeyKept` | src/make_serializable.py:30-35 | a dict with a bytes key comes back from `make_serializable` with that key still bytes |
| `Serializer.TopLevelListKeepsBytes` | src/make_serializable.py:46-49 | `make_serializable([b])` returns the list with the bytes still in it |
| `Serializer.FixedHelper` | src/make_serializable.py:16-35 | corrected helper: its result holds no bytes among list elements and dict values; it is the identity on such values; it returns what the helper as written returns whenever that succeeds; it raises only UnicodeDecodeError |
| `Serializer.FixedItems` | src/make_serializable.py:22-29 | corrected list branch: it succeeds iff every element converts, keeps length and order, and agrees with the written list branch wherever that succeeds |
| `Serializer.FixedEntries` | src/make_serializable.py:30-35 | corrected dict branch: it keeps every key at its index and agrees with the written dict branch wherever that succeeds |
| `Serializer.MakeSerializableFixed` | src/make_serializable.py:38-49 | corrected make_serializable: its result holds no bytes among list elements and dict values; it agrees with the written version on every argument that is not a list and on which the written version succeeds |
| `Serializer.FixedIdempotent` | src/make_serializable.py:38-49 | the corrected converter is idempotent |
| `Converter.Insert` | src/make_serializable.py:79 | one step of `dict(pairs)`: an existing key's entry is replaced by the new pair at its own index, with every other entry in place and the length unchanged; a new key is appended at the end; keys stay distinct |
| `Converter.FromPairs` | src/make_serializable.py:79 | `dict(pairs)` has distinct keys, no more entries than pairs, only entries taken from the pairs, and holds the last pair of every key |
| `Converter.FromDistinctPairs` | src/make_serializable.py:79 | `dict(pairs)` of pairs whose keys are already distinct has exactly those entries, in the same order |
| `Converter.Convert` | src/make_serializable.py:76-84 | `convert` fails exactly when some byte string in the tree, keys included, is not UTF-8, and then raises UnicodeDecodeError; otherwise its result contains no bytes anywhere and every dict in it has distinct keys |
| `Converter.ConvertItems` | src/make_serializable.py:80-83 | `map(convert, items)` keeps length and order and converts each element |
| `Converter.ConvertPair` | src/make_serializable.py:79 | a dict item is converted on both sides, key and value |
| `Converter.ConvertPairs` | src/make_serializable.py:79 | `map(convert, data.items())` converts every item in order |
| `Converter.ConvertPairIsTupleBranch` | src/make_serializable.py:79-81 | converting a dict item is exactly `convert` of the 2-tuple (key, value) |
| `Converter.ConvertShape` | src/make_serializable.py:76-84 | bytes are decoded; a list stays a list and a tuple a tuple, of the same length, converted element by element; a dict becomes a dict with at most as many entries, each a converted input item; str, numbers and None are unchanged |
| `Converter.ConvertKeepsLastValue` | src/make_serializable.py:79 | when keys collide after conversion, the surviving entry holds the value of the last such item |
| `Converter.ConvertMergesCollidingKeys` | src/make_serializable.py:79 | `convert({"a": 1, b"a": 2})` is `{"a": 2}` |
| `Converter.ConvertIdentity` | src/make_serializable.py:76-84 | `convert` is the identity on byte-free trees whose dicts have distinct keys |
| `Converter.ConvertIdempotent` | src/make_serializable.py:76-84 | converting the output of `convert` again returns it unchanged |
| `Converter.ConvertersAgree` | src/make_serializable.py:16-84 | on a dict whose bytes occur only as list elements and dict values, with none in keys or tuples, `convert` returns what `make_serializable` returns whenever the latter succeeds |
| `Converter.ConvertersDisagreeOnTupledBytes` | src/make_serializable.py:30-35 | `make_serializable({"k": (b"a",)})` returns the dict unchanged, while `convert` of it gives `{"k": ("a",)}` |
| `Workflow.ContainsKey` | src/gha.py:50-60 | a dict that has the key directly contains it, whatever the value; only dicts and lists can contain a key |
| `Workflow.ContainsKeyIffReachable` | src/gha.py:50-60 | `contains_key` holds exactly when the key is a key of some dict reached from the root through dict values and list elements; scalars, even a string equal to the key, give false |
| `Workflow.SentinelFoundUnderSteps` | src/tests/test_gha.py:108-118 | a `VERACODE` key under `steps[0].with` is found |
| `Workflow.SentinelAbsent` | src/tests/test_gha.py:98-106 | a workflow without the key gives false |
| `Workflow.HasArtifact` | src/gha.py:62-68 | a file that fails to parse counts as having no artifact; a parsed file has one exactly when the key is reachable in its tree |
| `Workflow.Files` | src/gha.py:28 | the comprehension keeps exactly the entries that are files, each as often as it is listed, and returns a listing made only of files unchanged |
| `Workflow.WorkflowFiles` | src/gha.py:19-30 | a missing directory yields no files; otherwise exactly the file entries are returned |
| `Workflow.Run` | src/gha.py:8-16 | `artifact_produced` is true exactly when some workflow file has the artifact, so it is false with no files; the scan stops at the first such file, and every file examined before it has no artifact |

## Left out

- `JSONEncoderBytes` and `json.dumps`: a thin override of the standard-library encoder, whose behaviour is not visible here.
- The `__main__` demonstration in `src/make_serializable.py` (lines 103-133): it prints, and relies on shallow-copy aliasing.
- In-place mutation and aliasing. Values here are immutable trees. The helper's overwriting of `x[k]` is modelled on the dict's own entry sequence, and only the returned value is modelled. Two consequences are not captured. A caller holding the input dict does not see it change. A dict object reachable twice in the input is converted twice in Python, and the second pass can raise.
- UTF-8 decoding is a strict decoder of RFC 3629 section 4. Python's error message and the error's byte offset are not modelled.
- Numbers, booleans and floats are all `Num(int)`. Python's cross-type key equality (`1 == 1.0 == True`) is not modelled, and neither is the rule that dict keys must be hashable.
- Python's recursion limit (`RecursionError` on very deep trees) is not modelled; the model converts trees of any depth.
- File I/O and YAML parsing (`open`, `yaml.safe_load`, `Path.iterdir`, `is_file`) are abstracted. A directory is a listing of entries; a missing directory is `None`; each file carries the outcome of parsing it. Errors the source does not catch are not modelled: those from `open`, from `iterdir` other than a missing directory (for instance NotADirectoryError when `.github/workflows` is a regular file), and from reading the file's text (a UnicodeDecodeError raised inside `yaml.safe_load` is not a `yaml.YAMLError`).
- Logging of the parse error (`src/gha.py:67`): a side effect with no bearing on the result.
- `src/tests/test_gha.py` is mock-based. It is used as the source of the example trees, not modelled itself.
- Serializer.MakeSerializableFixed: corrects only the list-element and top-level-list cases; bytes dict keys and bytes inside tuples stay, as in the code as written.
- Workflow.Run: the `examined` result is added by the model. It counts the files the loop looked at, so that stopping at the first match can be stated.
- Converter.FromPairs: states which entries survive and what they hold, but not that they keep the order in which their keys were first inserted.
- Workflow.WorkflowFiles: states which entries are kept and how many times, but states their order only when every entry is a file.

## Findings

| source | as written | input that shows it | evidently intended | confidence | as-written member | corrected member |
|---|---|---|---|---|---|---|
| src/make_serializable.py:24-28 | a list element that is not bytes is handed back to the helper. That raises AttributeError for a non-empty str (line 30) and TypeError for None or a number (line 20) | `{"k": [b"x"]}` converts to `{"k": ["x"]}`, and converting that again raises AttributeError; `{"k": ["a"]}` raises on the first pass | list elements that are neither bytes nor containers are kept, as dict values are (lines 31-34). The converter is then idempotent | not executed; high | `Serializer.HelperNotIdempotent` | `Serializer.FixedIdempotent` |
| src/make_serializable.py:46-49 | a top-level list is returned unchanged, bytes included | `make_serializable([b"x"])` returns `[b"x"]`, which `json.dumps` rejects | a top-level list converted like a list nested in a dict | not executed; medium | `Serializer.TopLevelListKeepsBytes` | `Serializer.MakeSerializableFixed` |

`Serializer.Serialize` keeps the as-written `make_serializable`, because it
models `serialize` as the source has it. The corrected helper is the one
through which `Converter.ConvertersAgree` is proved.
