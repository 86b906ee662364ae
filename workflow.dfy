/**
  The GitHub Actions workflow scanner: does any workflow file of the
  repository contain the key that marks a Veracode artifact upload, at any
  depth of its parsed YAML tree? Reading the directory and parsing the files
  are abstracted: the directory is a listing of entries, and each file
  carries the outcome of parsing it.
 */
module Workflow {
  import opened Wrappers
  import opened PyValue

  /** The key whose presence marks a step that uploads a Veracode artifact. */
  const Sentinel: string := "VERACODE"

  // ---------------------------------------------------------------------
  // contains_key
  // ---------------------------------------------------------------------

  /** `key in data` for a dict. */
  predicate HasKey(entries: seq<(Value, Value)>, key: string) {
    exists i | 0 <= i < |entries| :: entries[i].0 == Str(key)
  }

  /** `contains_key(data, key)`: the key is a dict key somewhere below dicts and lists. */
  function ContainsKey(data: Value, key: string): (b: bool)
    ensures data.Dict? && HasKey(data.entries, key) ==> b
    ensures b ==> data.Dict? || data.List?
  {
    match data
    case Dict(entries) =>
      HasKey(entries, key) || exists i | 0 <= i < |entries| :: ContainsKey(entries[i].1, key)
    case List(items) =>
      exists i | 0 <= i < |items| :: ContainsKey(items[i], key)
    case _ => false
  }

  /** One step down a tree: into a list element or into a dict entry's value. */
  datatype Step = Item(index: nat) | ValueOf(index: nat)

  /** The subtree reached by following `path` from `data`, if the path exists. */
  function Follow(data: Value, path: seq<Step>): Option<Value>
    decreases |path|
  {
    if path == [] then Some(data)
    else match path[0]
      case Item(i) =>
        if data.List? && i < |data.items| then Follow(data.items[i], path[1..]) else None
      case ValueOf(i) =>
        if data.Dict? && i < |data.entries| then Follow(data.entries[i].1, path[1..]) else None
  }

  /** Following `path` from `data` reaches a dict that has `key`. */
  ghost predicate KeyAt(data: Value, key: string, path: seq<Step>) {
    var sub := Follow(data, path);
    sub.Some? && sub.value.Dict? && HasKey(sub.value.entries, key)
  }

  lemma {:induction false} KeyAtImpliesContainsKey(data: Value, key: string, path: seq<Step>)
    requires KeyAt(data, key, path)
    ensures ContainsKey(data, key)
    decreases |path|
  {
    if path != [] {
      match path[0]
      case Item(i) =>
        KeyAtImpliesContainsKey(data.items[i], key, path[1..]);
      case ValueOf(i) =>
        KeyAtImpliesContainsKey(data.entries[i].1, key, path[1..]);
    }
  }

  lemma {:induction false} ContainsKeyImpliesKeyAt(data: Value, key: string)
    requires ContainsKey(data, key)
    ensures exists path :: KeyAt(data, key, path)
    decreases data
  {
    match data
    case Dict(entries) =>
      if HasKey(entries, key) {
        assert KeyAt(data, key, []);
      } else {
        var i :| 0 <= i < |entries| && ContainsKey(entries[i].1, key);
        ContainsKeyImpliesKeyAt(entries[i].1, key);
        var path :| KeyAt(entries[i].1, key, path);
        assert ([ValueOf(i)] + path)[1..] == path;
        assert KeyAt(data, key, [ValueOf(i)] + path);
      }
    case List(items) =>
      var i :| 0 <= i < |items| && ContainsKey(items[i], key);
      ContainsKeyImpliesKeyAt(items[i], key);
      var path :| KeyAt(items[i], key, path);
      assert ([Item(i)] + path)[1..] == path;
      assert KeyAt(data, key, [Item(i)] + path);
  }

  /**
    `contains_key` holds exactly when the key is a key of some dict reached
    from the root through list elements and dict values; a scalar, even a
    string equal to the key, never contains it.
   */
  lemma ContainsKeyIffReachable(data: Value, key: string)
    ensures ContainsKey(data, key) <==> exists path :: KeyAt(data, key, path)
  {
    if ContainsKey(data, key) {
      ContainsKeyImpliesKeyAt(data, key);
    }
    if exists path :: KeyAt(data, key, path) {
      var path :| KeyAt(data, key, path);
      KeyAtImpliesContainsKey(data, key, path);
    }
  }

  /** The workflow of the upload example: the key sits under `steps[0].with`. */
  function UploadWorkflow(): Value {
    Dict([(Str("steps"), List([Dict([
      (Str("name"), Str("Upload Veracode Artifact")),
      (Str("uses"), Str("Workiva/gha-store-artifacts@v1.0.0")),
      (Str("with"), Dict([(Str("VERACODE"), Str("/path/to/artifact"))]))])]))])
  }

  /** A workflow whose only step has no such key. */
  function PlainWorkflow(): Value {
    Dict([(Str("steps"), List([Dict([
      (Str("name"), Str("Some Step")),
      (Str("uses"), Str("some-action@v1"))])]))])
  }

  lemma SentinelFoundUnderSteps()
    ensures ContainsKey(UploadWorkflow(), Sentinel)
  {
    var with := Dict([(Str("VERACODE"), Str("/path/to/artifact"))]);
    var path := [ValueOf(0), Item(0), ValueOf(2)];
    assert Follow(UploadWorkflow(), path) == Some(with);
    assert with.entries[0].0 == Str(Sentinel);
    KeyAtImpliesContainsKey(UploadWorkflow(), Sentinel, path);
  }

  lemma SentinelAbsent()
    ensures !ContainsKey(PlainWorkflow(), Sentinel)
  {
    var step := PlainWorkflow().entries[0].1.items[0];
    assert !ContainsKey(step, Sentinel) by {
      assert !HasKey(step.entries, Sentinel) by {
        assert "name" != Sentinel by { assert |"name"| != |Sentinel|; }
        assert "uses" != Sentinel by { assert |"uses"| != |Sentinel|; }
      }
    }
    assert !ContainsKey(PlainWorkflow().entries[0].1, Sentinel);
    assert "steps" != Sentinel by { assert |"steps"| != |Sentinel|; }
  }

  // ---------------------------------------------------------------------
  // _workflow_has_veracode_artifact, _get_workflow_files, run
  // ---------------------------------------------------------------------

  /** What `yaml.safe_load` made of a workflow file. */
  datatype ParseOutcome = Parsed(tree: Value) | ParseError(message: string)

  /** `_workflow_has_veracode_artifact`: a file that does not parse is logged and counts as no artifact. */
  function HasArtifact(doc: ParseOutcome): (b: bool)
    ensures doc.ParseError? ==> !b
    ensures doc.Parsed? ==> (b <==> exists path :: KeyAt(doc.tree, Sentinel, path))
  {
    match doc
    case Parsed(tree) => ContainsKeyIffReachable(tree, Sentinel); ContainsKey(tree, Sentinel)
    case ParseError(_) => false
  }

  /** An entry of the workflows directory, as `Path.iterdir` lists it. */
  datatype Entry = File(name: string, content: ParseOutcome) | Directory(name: string)

  /** The entries that are files, in directory order. */
  function Files(entries: seq<Entry>): (files: seq<Entry>)
    ensures forall e | e in files :: e.File?
    ensures forall e: Entry | e.File? :: multiset(files)[e] == multiset(entries)[e]
    ensures (forall e | e in entries :: e.File?) ==> files == entries
  {
    if entries == [] then []
    else
      assert entries == [entries[0]] + entries[1..];
      if entries[0].File? then [entries[0]] + Files(entries[1..]) else Files(entries[1..])
  }

  /** `_get_workflow_files`: a missing directory (`None`) yields no files. */
  function WorkflowFiles(listing: Option<seq<Entry>>): (files: seq<Entry>)
    ensures listing.None? ==> files == []
    ensures forall e | e in files :: e.File?
    ensures listing.Some? ==> forall e: Entry | e.File? :: multiset(files)[e] == multiset(listing.value)[e]
  {
    match listing
    case None => []
    case Some(entries) => Files(entries)
  }

  /** The dict `run` returns. */
  datatype Report = Report(artifactProduced: bool)

  /**
    `run`: scans the workflow files in order and stops at the first one that
    has the artifact key. `examined` counts the files it looked at.
   */
  method Run(listing: Option<seq<Entry>>) returns (data: Report, examined: nat)
    ensures var files := WorkflowFiles(listing);
      && examined <= |files|
      && (data.artifactProduced <==> exists i | 0 <= i < |files| :: HasArtifact(files[i].content))
      && (data.artifactProduced ==> 0 < examined && HasArtifact(files[examined - 1].content))
      && (!data.artifactProduced ==> examined == |files|)
      && forall i | 0 <= i < examined - 1 :: !HasArtifact(files[i].content)
  {
    var files := WorkflowFiles(listing);
    data := Report(false);
    examined := 0;
    for i := 0 to |files|
      invariant examined == i && !data.artifactProduced
      invariant forall j | 0 <= j < i :: !HasArtifact(files[j].content)
    {
      examined := examined + 1;
      if HasArtifact(files[i].content) {
        data := data.(artifactProduced := true);
        break;
      }
    }
  }
}
