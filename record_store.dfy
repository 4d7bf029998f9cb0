/**
 * The write-through record store: class `Json` of main.py, a dictionary
 * whose every assignment rewrites its whole backing file.  The file layer is
 * a `FileSystem` object that maps each path to the document last written to
 * it; the JSON text in between is not modelled (see README).
 */
module RecordStore {
  import opened Wrappers

  /** A JSON value as `json.dump` writes it and `json.load` reads it back. */
  datatype Value =
    | Null
    | Bool(b: bool)
    | Number(n: int)
    | Text(s: string)
    | List(items: seq<Value>)
    | Object(members: map<string, Value>)

  /** The mapping a record holds in memory, and the content of a record file. */
  type Document = map<string, Value>

  /** The files of the machine: each path holds the document last dumped to it. */
  class FileSystem {
    var files: map<string, Document>

    constructor (initial: map<string, Document>)
      ensures files == initial
    {
      files := initial;
    }
  }

  /**
   * Python's `path if path else self.path`: the explicit path unless it is
   * `None` or empty, and the store's own path then.
   */
  function Destination(path: Option<string>, default: string): (target: string)
    ensures target == default || path == Some(target)
    ensures target == default <==> (path.None? || path.value == "" || path.value == default)
    ensures default != "" ==> target != ""
  {
    if path.Some? && path.value != "" then path.value else default
  }

  /**
   * The document after assigning `keys[i] := values[i]` for i = 0, 1, ...
   * in order, as `adds` does.
   */
  function AssignAll(m: Document, keys: seq<string>, values: seq<Value>): (r: Document)
    requires |keys| == |values|
    ensures m.Keys <= r.Keys
    ensures forall i :: 0 <= i < |keys| ==> keys[i] in r
    ensures |keys| > 0 ==> r[keys[|keys| - 1]] == values[|keys| - 1]
  {
    if |keys| == 0 then m
    else
      var n := |keys| - 1;
      AssignAll(m, keys[..n], values[..n])[keys[n] := values[n]]
  }

  /** After `adds`, the keys are the old keys and the assigned ones. */
  lemma {:induction false} AssignAllKeys(m: Document, keys: seq<string>, values: seq<Value>, k: string)
    requires |keys| == |values|
    ensures k in AssignAll(m, keys, values) <==> k in m || k in keys
  {
    if |keys| > 0 {
      var n := |keys| - 1;
      AssignAllKeys(m, keys[..n], values[..n], k);
      assert keys == keys[..n] + [keys[n]];
    }
  }

  /** After `adds`, a key that is not assigned keeps its value. */
  lemma {:induction false} AssignAllUnassigned(m: Document, keys: seq<string>, values: seq<Value>, k: string)
    requires |keys| == |values|
    requires k in m && k !in keys
    ensures k in AssignAll(m, keys, values) && AssignAll(m, keys, values)[k] == m[k]
  {
    if |keys| > 0 {
      var n := |keys| - 1;
      assert k !in keys[..n];
      AssignAllUnassigned(m, keys[..n], values[..n], k);
    }
  }

  /** After `adds`, an assigned key holds the value of its LAST assignment. */
  lemma {:induction false} AssignAllLastWins(m: Document, keys: seq<string>, values: seq<Value>, i: nat)
    requires |keys| == |values| && i < |keys|
    requires forall j :: i < j < |keys| ==> keys[j] != keys[i]
    ensures keys[i] in AssignAll(m, keys, values) && AssignAll(m, keys, values)[keys[i]] == values[i]
  {
    var n := |keys| - 1;
    if i < n {
      assert keys[..n][i] == keys[i] && values[..n][i] == values[i];
      assert forall j :: i < j < n ==> keys[..n][j] == keys[j];
      AssignAllLastWins(m, keys[..n], values[..n], i);
    }
  }

  /** A record document with a path to its backing file: class `Json`. */
  class Json {
    var data: Document
    const path: string
    const fs: FileSystem

    /** The write-through invariant: the file at `path` holds exactly `data`. */
    ghost predicate Synced()
      reads this, fs
    {
      path in fs.files && fs.files[path] == data
    }

    /**
     * `Json(path, create_template)`: an empty document, written to `path`
     * at once when `createTemplate` holds.  `open("")` fails in Python, so
     * the path must not be empty.
     */
    constructor (fs: FileSystem, path: string, createTemplate: bool)
      requires path != ""
      modifies fs
      ensures this.fs == fs && this.path == path && data == map[]
      ensures createTemplate ==> fs.files == old(fs.files)[path := map[]] && Synced()
      ensures !createTemplate ==> fs.files == old(fs.files)
    {
      this.fs := fs;
      this.path := path;
      data := map[];
      new;
      if createTemplate {
        Dump(None);
      }
    }

    /** `dump(path)`: write `data` to `path`, or to the store's own path. */
    method Dump(p: Option<string>)
      modifies fs
      ensures fs.files == old(fs.files)[Destination(p, path) := data]
      ensures p.None? ==> Synced()
    {
      fs.files := fs.files[Destination(p, path) := data];
    }

    /**
     * `load(path)`: replace `data` by the document stored at `path`, or at
     * the store's own path.  A missing file raises `FileNotFoundError`
     * before `data` is touched: `found` is false and nothing changes.
     */
    method Load(p: Option<string>) returns (found: bool)
      modifies this
      ensures found <==> Destination(p, path) in fs.files
      ensures found ==> data == fs.files[Destination(p, path)]
      ensures !found ==> data == old(data)
    {
      var target := Destination(p, path);
      found := target in fs.files;
      if found {
        data := fs.files[target];
      }
    }

    /** `obj[key] = value`: assign one key, then rewrite the backing file. */
    method Set(key: string, value: Value)
      modifies this, fs
      ensures data == old(data)[key := value]
      ensures fs.files == old(fs.files)[path := data]
      ensures Synced()
    {
      data := data[key := value];
      Dump(None);
    }

    /** `add(key, value)`: the same as `obj[key] = value`. */
    method Add(key: string, value: Value)
      modifies this, fs
      ensures data == old(data)[key := value]
      ensures fs.files == old(fs.files)[path := data]
      ensures Synced()
    {
      Set(key, value);
    }

    /**
     * `adds(keys, values)`: assign `keys[i] := values[i]` for every index of
     * `keys` in order, each assignment written through.  With fewer values
     * than keys, the assignments up to the last value happen and then
     * `values[idx]` raises `IndexError`: `ok` is false.
     */
    method Adds(keys: seq<string>, values: seq<Value>) returns (ok: bool)
      modifies this, fs
      ensures ok <==> |keys| <= |values|
      ensures var n := if ok then |keys| else |values|;
        && data == AssignAll(old(data), keys[..n], values[..n])
        && (n > 0 ==> fs.files == old(fs.files)[path := data])
        && (n == 0 ==> fs.files == old(fs.files))
    {
      var i := 0;
      while i < |keys|
        invariant 0 <= i <= |keys| && i <= |values|
        invariant data == AssignAll(old(data), keys[..i], values[..i])
        invariant i > 0 ==> fs.files == old(fs.files)[path := data]
        invariant i == 0 ==> fs.files == old(fs.files)
      {
        if i == |values| {
          return false;
        }
        Set(keys[i], values[i]);
        assert keys[..i + 1][..i] == keys[..i];
        assert values[..i + 1][..i] == values[..i];
        i := i + 1;
      }
      ok := true;
      assert keys[..|keys|] == keys;
    }
  }

  /**
   * Dumping a record to a path and loading it back from the same path
   * leaves the record as it was.
   */
  method DumpThenLoad(record: Json, p: Option<string>)
    modifies record, record.fs
    ensures record.data == old(record.data)
    ensures record.fs.files == old(record.fs.files)[Destination(p, record.path) := record.data]
  {
    record.Dump(p);
    var found := record.Load(p);
    assert found;
  }
}
