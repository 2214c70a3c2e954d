/** The configuration lookup `getValue` of the project-variable script: a
    dotted path is split at every '.', and its pieces are looked up one after
    the other; a dict reached at the end is resolved by the OS name. The OS
    name (from Platform.OsName) is a parameter here. */
module ProjectVar {
  import opened Results
  import opened Values
  import opened Platform

  /** The pieces joined with a '.' between each two; the inverse of Split. */
  function Join(pieces: seq<string>): string
    requires |pieces| > 0
  {
    if |pieces| == 1 then pieces[0] else pieces[0] + "." + Join(pieces[1..])
  }

  /** Python's `s.split('.')`: the text between the dots, empty pieces kept,
      so that there is always one piece more than there are dots. */
  function Split(s: string): (r: seq<string>)
    ensures |r| > 0
    ensures forall i | 0 <= i < |r| :: '.' !in r[i]
    ensures Join(r) == s
    decreases |s|
  {
    if |s| == 0 then [""]
    else
      var rest := Split(s[1..]);
      if s[0] == '.' then
        assert ([""] + rest)[1..] == rest;
        [""] + rest
      else
        var r := [[s[0]] + rest[0]] + rest[1..];
        assert r[1..] == rest[1..];
        assert forall i | 1 <= i < |r| :: r[i] == rest[i];
        assert s == [s[0]] + s[1..];
        r
  }

  /** Splitting text without a dot gives that text as the only piece. */
  lemma SplitNoDot(p: string)
    requires '.' !in p
    ensures Split(p) == [p]
    decreases |p|
  {
  }

  /** A dot-free piece before the first dot splits off as the first piece. */
  lemma {:induction false} SplitFirst(p: string, rest: string)
    requires '.' !in p
    ensures Split(p + "." + rest) == [p] + Split(rest)
    decreases |p|
  {
    if |p| == 0 {
      assert p + "." + rest == "." + rest;
      assert ("." + rest)[1..] == rest;
    } else {
      var s := p + "." + rest;
      assert s[0] == p[0] && s[1..] == p[1..] + "." + rest;
      SplitFirst(p[1..], rest);
      assert [p[0]] + p[1..] == p;
    }
  }

  /** Joining dot-free pieces and splitting the result gives the pieces back. */
  lemma {:induction false} SplitJoin(pieces: seq<string>)
    requires |pieces| > 0
    requires forall i | 0 <= i < |pieces| :: '.' !in pieces[i]
    ensures Split(Join(pieces)) == pieces
  {
    if |pieces| == 1 {
      SplitNoDot(pieces[0]);
    } else {
      SplitJoin(pieces[1..]);
      SplitFirst(pieces[0], Join(pieces[1..]));
      assert [pieces[0]] + pieces[1..] == pieces;
    }
  }

  /** The loop `rv = rv[key]` over the keys, in order, stopping at the first
      lookup that raises. */
  function Walk(v: Value, keys: seq<string>): (r: Result<Value>)
    ensures r.Err? ==> r.error == KeyError || r.error == TypeError
    ensures |keys| > 0 && r.Ok? ==> v.Dict?
  {
    if |keys| == 0 then Ok(v)
    else
      match Get(v, keys[0])
      case Err(e) => Err(e)
      case Ok(w) => Walk(w, keys[1..])
  }

  /** Walking two key sequences one after the other is walking their
      concatenation. */
  lemma {:induction false} WalkAppend(v: Value, a: seq<string>, b: seq<string>)
    ensures Walk(v, a + b) ==
      match Walk(v, a)
      case Err(e) => Err(e)
      case Ok(w) => Walk(w, b)
  {
    if |a| == 0 {
      assert a + b == b;
    } else {
      assert (a + b)[0] == a[0] && (a + b)[1..] == a[1..] + b;
      match Get(v, a[0])
      case Err(e) =>
      case Ok(w) => WalkAppend(w, a[1..], b);
    }
  }

  /** The final step of `getValue`: a dict is resolved by the OS name (a
      missing name, as on an unsupported platform, is a missing key); any
      other value is kept as it is. */
  function ResolveOs(rv: Value, os: Option<string>): (r: Result<Value>)
    ensures !rv.Dict? ==> r == Ok(rv)
    ensures rv.Dict? && os.None? ==> r == Err(KeyError)
    ensures rv.Dict? && os.Some? ==> r == Get(rv, os.value)
  {
    if rv.Dict? then
      match os
      case None => Err(KeyError)
      case Some(name) => Get(rv, name)
    else Ok(rv)
  }

  /** `getValue(json, element)` with the OS name `os`. */
  function GetValue(config: Value, element: string, os: Option<string>): (r: Result<Value>)
    ensures r.Err? ==> r.error == KeyError || r.error == TypeError
  {
    match Walk(config, Split(element))
    case Err(e) => Err(e)
    case Ok(rv) => ResolveOs(rv, os)
  }

  /** A path whose first piece is `key` looks `key` up in the configuration
      and the rest of the path in the value found there, with the same final
      OS step. */
  lemma GetValueFirstKey(config: Value, key: string, rest: string, os: Option<string>)
    requires '.' !in key
    ensures GetValue(config, key + "." + rest, os) ==
      match Get(config, key)
      case Err(e) => Err(e)
      case Ok(w) => GetValue(w, rest, os)
  {
    SplitFirst(key, rest);
    assert ([key] + Split(rest))[1..] == Split(rest);
  }

  /** A path of dot-free pieces is the walk along those keys followed by
      one OS step. */
  lemma GetValuePath(config: Value, pieces: seq<string>, os: Option<string>)
    requires |pieces| > 0
    requires forall i | 0 <= i < |pieces| :: '.' !in pieces[i]
    ensures GetValue(config, Join(pieces), os) ==
      match Walk(config, pieces)
      case Err(e) => Err(e)
      case Ok(rv) => ResolveOs(rv, os)
  {
    SplitJoin(pieces);
  }

  /** The OS step happens once: a dict found under the OS name is returned
      as it is, without a second lookup. */
  lemma OsStepOnce(config: Value, element: string, name: string, m: Value)
    requires Walk(config, Split(element)).Ok?
    requires Walk(config, Split(element)).value.Dict?
    requires UniqueKeys(Walk(config, Split(element)).value.entries)
    requires (name, m) in Walk(config, Split(element)).value.entries
    ensures GetValue(config, element, Some(name)) == Ok(m)
  {
  }

  /** Without an OS name (an unsupported platform) a lookup only succeeds on
      a value that is not a dict. */
  lemma UnsupportedPlatformNoDict(config: Value, element: string, platform: string)
    requires OsName(platform).None?
    ensures GetValue(config, element, OsName(platform)).Ok? ==>
      !GetValue(config, element, OsName(platform)).value.Dict?
  {
  }
}
