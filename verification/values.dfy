/** The nested configuration value that a TOML parser hands to the build
    scripts: dicts whose entries keep their insertion order, lists, and
    scalars. */
module Values {
  import opened Results

  /** A dict is its (key, value) entries in insertion order; a scalar is
      held as the text `str()` gives for it. */
  datatype Value =
    | Dict(entries: seq<(string, Value)>)
    | List(items: seq<Value>)
    | Scalar(text: string)
  {
    /** Python's `isinstance(v, (dict, list))`. */
    predicate IsContainer() {
      Dict? || List?
    }
  }

  /** No key occurs twice among the entries, as in every Python dict. */
  predicate UniqueKeys(entries: seq<(string, Value)>) {
    forall i, j | 0 <= i < j < |entries| :: entries[i].0 != entries[j].0
  }

  /** The value stored under `key` among `entries`, if any. */
  function Find(entries: seq<(string, Value)>, key: string): (r: Option<Value>)
    ensures r.None? <==> forall i | 0 <= i < |entries| :: entries[i].0 != key
    ensures r.Some? ==> (key, r.value) in entries
  {
    if |entries| == 0 then None
    else if entries[0].0 == key then Some(entries[0].1)
    else
      var r := Find(entries[1..], key);
      assert forall i | 1 <= i < |entries| :: entries[i] == entries[1..][i - 1];
      r
  }

  /** In a dict without repeated keys, lookup finds exactly the stored entries. */
  lemma FindUnique(entries: seq<(string, Value)>, key: string, v: Value)
    requires UniqueKeys(entries)
    ensures Find(entries, key) == Some(v) <==> (key, v) in entries
  {
  }

  /** Python's subscript `v[key]` with a string key: a dict lookup that raises
      KeyError for a missing key, and TypeError on a list or a scalar, which
      cannot be indexed by a string. */
  function Get(v: Value, key: string): (r: Result<Value>)
    ensures r.Ok? ==> v.Dict? && (key, r.value) in v.entries
    ensures r.Err? && v.Dict? ==> r.error == KeyError && forall i | 0 <= i < |v.entries| :: v.entries[i].0 != key
    ensures !v.Dict? ==> r == Err(TypeError)
  {
    match v
    case Dict(entries) =>
      (match Find(entries, key)
       case Some(w) => Ok(w)
       case None => Err(KeyError))
    case _ => Err(TypeError)
  }
}
