/**
 * The base `Auth` class of the basic-authentication API: which request
 * paths need authentication (`require_auth`), the Authorization header
 * (`authorization_header`) and the placeholder `current_user`.
 */
module BasicAuth {
  import opened Wrappers
  import opened Strings

  /**
   * One pass of the loop of `require_auth` over an excluded entry: the
   * entry starts with the path, the path starts with the entry, or the
   * entry ends in `*` and the path starts with the entry minus the star.
   * An empty entry never reaches the `*` test: every path starts with it.
   */
  predicate EntryExcludes(path: string, entry: string)
  {
    || StartsWith(entry, path)
    || StartsWith(path, entry)
    || (entry[|entry| - 1] == '*' && StartsWith(path, entry[..|entry| - 1]))
  }

  /** The loop of `require_auth`: some entry, tried in order, excludes the path. */
  function AnyExcludes(path: string, entries: seq<string>): bool
  {
    if entries == [] then false
    else EntryExcludes(path, entries[0]) || AnyExcludes(path, entries[1..])
  }

  /**
   * `require_auth(path, excluded_paths)`: True for a None path and for a
   * None or empty list; False for a path in the list; otherwise False
   * exactly when some entry excludes the path.
   */
  function RequireAuth(path: Option<string>, excludedPaths: Option<seq<string>>): bool
  {
    if path.None? then true
    else if excludedPaths.None? || excludedPaths.value == [] then true
    else if path.value in excludedPaths.value then false
    else !AnyExcludes(path.value, excludedPaths.value)
  }

  /** The loop finds an excluding entry exactly when one exists. */
  lemma {:induction false} AnyExcludesIff(path: string, entries: seq<string>)
    ensures AnyExcludes(path, entries) <==> exists k :: 0 <= k < |entries| && EntryExcludes(path, entries[k])
    decreases |entries|
  {
    if entries != [] {
      AnyExcludesIff(path, entries[1..]);
      if exists k :: 0 <= k < |entries| - 1 && EntryExcludes(path, entries[1..][k]) {
        var k :| 0 <= k < |entries| - 1 && EntryExcludes(path, entries[1..][k]);
        assert entries[k + 1] == entries[1..][k];
      }
      if exists k :: 0 <= k < |entries| && EntryExcludes(path, entries[k]) {
        var k :| 0 <= k < |entries| && EntryExcludes(path, entries[k]);
        if k > 0 {
          assert entries[1..][k - 1] == entries[k];
        }
      }
    }
  }

  /**
   * The whole rule: with a path and a non-empty list, authentication is
   * required exactly when no excluded entry matches the path by any rule.
   * (Exact membership is a special case of "the entry starts with the path".)
   */
  lemma RequireAuthIff(path: string, excluded: seq<string>)
    requires excluded != []
    ensures RequireAuth(Some(path), Some(excluded)) <==>
              forall k :: 0 <= k < |excluded| ==> !EntryExcludes(path, excluded[k])
  {
    AnyExcludesIff(path, excluded);
    if path in excluded {
      var k :| 0 <= k < |excluded| && excluded[k] == path;
      assert StartsWith(excluded[k], path);
    }
  }

  /** No path, no list or an empty list: authentication is required. */
  lemma RequireAuthByDefault(path: Option<string>, excluded: Option<seq<string>>)
    requires path.None? || excluded.None? || excluded == Some([])
    ensures RequireAuth(path, excluded)
  {
  }

  /** Slash tolerance: an entry `p/` excludes both `p` and `p/`. */
  lemma SlashTolerant(p: string, others: seq<string>)
    ensures !RequireAuth(Some(p), Some([p + "/"] + others))
    ensures !RequireAuth(Some(p + "/"), Some([p + "/"] + others))
  {
    var entry := p + "/";
    assert StartsWith(entry, p) by { assert entry[..|p|] == p; }
    RequireAuthIff(p, [entry] + others);
    RequireAuthIff(entry, [entry] + others);
    assert ([entry] + others)[0] == entry;
  }

  /** An entry ending in `*` excludes every path that starts with the entry minus the star. */
  lemma WildcardExcludes(path: string, excluded: seq<string>, k: nat)
    requires k < |excluded| && |excluded[k]| > 0 && excluded[k][|excluded[k]| - 1] == '*'
    requires StartsWith(path, excluded[k][..|excluded[k]| - 1])
    ensures !RequireAuth(Some(path), Some(excluded))
  {
    assert EntryExcludes(path, excluded[k]);
    RequireAuthIff(path, excluded);
  }

  /**
   * A path that is a prefix of an excluded entry needs no authentication,
   * however short: with `/api/v1/status/` excluded, so is `/`.
   */
  lemma PrefixOfEntryExcluded(path: string, excluded: seq<string>, k: nat)
    requires k < |excluded| && StartsWith(excluded[k], path)
    ensures !RequireAuth(Some(path), Some(excluded))
  {
    assert EntryExcludes(path, excluded[k]);
    RequireAuthIff(path, excluded);
  }

  /** A request; header names are taken as already in their canonical spelling. */
  datatype HttpRequest = HttpRequest(headers: map<string, string>)

  /**
   * `authorization_header(request)`: None without a request or without a
   * non-empty Authorization header, and otherwise the header's value.
   */
  function AuthorizationHeader(request: Option<HttpRequest>): (r: Option<string>)
    ensures r.Some? <==>
              request.Some? && "Authorization" in request.value.headers && request.value.headers["Authorization"] != ""
    ensures r.Some? ==> r.value == request.value.headers["Authorization"]
  {
    if request.None? then None
    else if "Authorization" !in request.value.headers || request.value.headers["Authorization"] == "" then None
    else Some(request.value.headers["Authorization"])
  }

  /** `current_user(request)`: the base class knows no user. */
  function CurrentUser<U>(request: Option<HttpRequest>): (u: Option<U>)
    ensures u == None
  {
    None
  }
}
