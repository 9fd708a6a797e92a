/**
 Request routing in src/http_server.cpp: handlers by method and resource, and the lookup of the
 longest registered ancestor of a path.
 */
module Routing {
  import opened Bytes

  /** `k` covers `path`: it is the path, or a prefix of it that ends right before a slash. */
  predicate Covers(k: string, path: string) {
    k == path || (k <= path && |k| < |path| && path[|k|] == '/')
  }

  /** The last slash of a string, as `find_last_of`. */
  function LastSlash(s: string): (r: Option<nat>)
    ensures r.Some? ==> r.value < |s| && s[r.value] == '/' && forall j | r.value < j < |s| :: s[j] != '/'
    ensures r.None? ==> forall j | 0 <= j < |s| :: s[j] != '/'
  {
    if s == "" then None
    else if s[|s| - 1] == '/' then Some(|s| - 1)
    else LastSlash(s[..|s| - 1])
  }

  /** A cover shorter than `st` is a cover of what is left of `st` at its last slash. */
  lemma CoverBeforeSlash(k: string, st: string, path: string)
    requires Covers(st, path) && Covers(k, path) && |k| < |st|
    ensures LastSlash(st).Some? && |k| <= LastSlash(st).value
  {
    assert st[|k|] == path[|k|] == '/';
  }

  /** `find_submatch`: the key of the longest handler that covers the path, if any. */
  method FindSubmatch<H>(handlers: map<string, H>, path: string) returns (found: Option<string>)
    ensures found.Some? ==> found.value in handlers && Covers(found.value, path)
    ensures found.Some? ==> forall k | k in handlers && Covers(k, path) :: |k| <= |found.value|
    ensures found.None? ==> forall k | k in handlers :: !Covers(k, path)
  {
    var st := path;
    var slash: nat := |path|;
    assert st[..slash] == path;
    while true
      invariant slash <= |st| && Covers(st[..slash], path)
      invariant forall k | k in handlers && Covers(k, path) :: |k| <= slash
      decreases slash
    {
      st := st[..slash];
      if st in handlers {
        return Some(st);
      }
      var r := LastSlash(st);
      forall k | k in handlers && Covers(k, path)
        ensures r.Some? && |k| <= r.value
      {
        assert |k| == |st| ==> k == st;
        CoverBeforeSlash(k, st, path);
      }
      if r.None? {
        return None;
      }
      assert st[..r.value] <= path && path[r.value] == '/';
      slash := r.value;
    }
  }

  /** The longest cover is unique. */
  lemma CoversOfOneLength(a: string, b: string, path: string)
    requires Covers(a, path) && Covers(b, path) && |a| == |b|
    ensures a == b
  {
    assert a == path[..|a|] && b == path[..|b|];
  }

  /** `strip_trailing_slash`. */
  function StripTrailingSlash(s: string): string {
    if s != "" && s[|s| - 1] == '/' then s[..|s| - 1] else s
  }

  /** One slash at the end goes, and nothing else does. */
  lemma OneSlash(s: string)
    ensures StripTrailingSlash(s + "/") == s
    ensures (s == "" || s[|s| - 1] != '/') ==> StripTrailingSlash(s) == s
  {
    assert (s + "/")[..|s|] == s;
  }

  /** A handler registered on the root covers every path that starts with a slash. */
  lemma RootCoversAll(path: string)
    requires path == "" || path[0] == '/'
    ensures Covers(StripTrailingSlash("/"), path)
  {
    assert StripTrailingSlash("/") == "";
  }

  /** A handler covers its own resource, with or without a trailing slash, and everything below it. */
  lemma RegisteredCovers(resource: string, below: string)
    requires resource != "" && resource[|resource| - 1] != '/'
    ensures Covers(StripTrailingSlash(resource), StripTrailingSlash(resource))
    ensures Covers(StripTrailingSlash(resource), StripTrailingSlash(resource + "/"))
    ensures Covers(StripTrailingSlash(resource), StripTrailingSlash(resource + "/" + below))
  {
    assert (resource + "/")[..|resource|] == resource;
    var path := resource + "/" + below;
    assert path[|resource|] == '/' && path[..|resource|] == resource;
    if path[|path| - 1] == '/' && below == "" {
      assert StripTrailingSlash(path) == resource;
    }
  }

  datatype Table = GetTable | PostTable | PutTable | DeleteTable | OptionsTable

  /** `choose_map_by_method`; `None` is the exception for any other method. */
  function ChooseTable(verb: string): Option<Table> {
    if verb == "GET" || verb == "HEAD" then Some(GetTable)
    else if verb == "POST" then Some(PostTable)
    else if verb == "PUT" then Some(PutTable)
    else if verb == "DELETE" then Some(DeleteTable)
    else if verb == "OPTIONS" then Some(OptionsTable)
    else None
  }

  /** Six methods are known, and two of them share a table only if they are GET and HEAD. */
  lemma TablesByMethod(a: string, b: string)
    ensures ChooseTable(a).Some?
       <==> exists k | 0 <= k < 6 :: a == ["GET", "HEAD", "POST", "PUT", "DELETE", "OPTIONS"][k]
    ensures ChooseTable(a).Some? ==> (ChooseTable(a) == ChooseTable(b)
                                      <==> a == b || (a == "GET" && b == "HEAD") || (a == "HEAD" && b == "GET"))
  {
    var known := ["GET", "HEAD", "POST", "PUT", "DELETE", "OPTIONS"];
    if ChooseTable(a).Some? {
      assert a == known[0] || a == known[1] || a == known[2] || a == known[3] || a == known[4] || a == known[5];
    }
  }

  /** The handler tables of a server. */
  class Router<H> {
    var tables: map<Table, map<string, H>>

    constructor ()
      ensures forall t :: t in tables && tables[t] == map[]
    {
      tables := map[GetTable := map[], PostTable := map[], PutTable := map[],
                    DeleteTable := map[], OptionsTable := map[]];
      new;
      forall t: Table
        ensures t in tables && tables[t] == map[]
      {
        match t
        case GetTable =>
        case PostTable =>
        case PutTable =>
        case DeleteTable =>
        case OptionsTable =>
      }
    }

    ghost predicate Complete()
      reads this
    {
      forall t: Table :: t in tables
    }

    /** `add_handler`: refused for an unknown method or a resource that has a handler already. */
    method AddHandler(verb: string, resource: string, handler: H) returns (ok: bool)
      requires Complete()
      modifies this
      ensures Complete()
      ensures ok <==> ChooseTable(verb).Some? && StripTrailingSlash(resource) !in old(tables)[ChooseTable(verb).value]
      ensures !ok ==> tables == old(tables)
      ensures ok ==>
        tables[ChooseTable(verb).value] == old(tables)[ChooseTable(verb).value][StripTrailingSlash(resource) := handler]
      ensures ok ==> forall t | t != ChooseTable(verb).value :: tables[t] == old(tables)[t]
    {
      var t := ChooseTable(verb);
      if t.None? {
        return false;
      }
      var clean := StripTrailingSlash(resource);
      if clean in tables[t.value] {
        return false;
      }
      tables := tables[t.value := tables[t.value][clean := handler]];
      return true;
    }

    /** The lookup of `handle_request`: by the method's table and the stripped resource. */
    method FindHandler(verb: string, resource: string) returns (key: Option<string>)
      requires Complete()
      ensures key.Some? ==> ChooseTable(verb).Some? && key.value in tables[ChooseTable(verb).value]
      ensures key.Some? ==> Covers(key.value, StripTrailingSlash(resource))
      ensures ChooseTable(verb).Some? ==>
        forall k | k in tables[ChooseTable(verb).value] && Covers(k, StripTrailingSlash(resource)) ::
          key.Some? && |k| <= |key.value|
    {
      var t := ChooseTable(verb);
      if t.None? {
        return None;
      }
      key := FindSubmatch(tables[t.value], StripTrailingSlash(resource));
    }
  }
}
