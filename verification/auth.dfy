/** The base `Auth` class of the API: the path gate `require_auth`, the
    header lookup `authorization_header` and the `current_user` stub. */
module Auth {
  import opened Values

  /** The headers of a request. */
  type Headers = map<string, string>

  /** The caller's Python list of excluded paths. `require_auth` may append to
      it, and the caller sees the change after the call returns. */
  class PathList {
    var items: seq<string>

    constructor (items: seq<string>)
      ensures this.items == items
    {
      this.items := items;
    }
  }

  /** What `require_auth` does: answers (true = authentication required), or
      raises `IndexError` from `path[-1]` on an empty path. */
  datatype Verdict = Decided(required: bool) | IndexError

  /** The path after lines 25-26: a `/` is appended unless it already ends in one. */
  function Normalize(path: string): (p: string)
    requires path != []
    ensures |p| > 0 && p[|p| - 1] == '/'
    ensures path[|path| - 1] == '/' ==> p == path
    ensures path[|path| - 1] != '/' ==> p == path + "/"
  {
    if path[|path| - 1] != '/' then path + "/" else path
  }

  /** The list after lines 27-28: the element "/" is appended unless the last
      element already is "/". The other elements are not normalised. */
  function Extended(items: seq<string>): (r: seq<string>)
    requires items != []
    ensures r != [] && r[|r| - 1] == "/"
    ensures items[|items| - 1] == "/" ==> r == items
    ensures items[|items| - 1] != "/" ==> r == items + ["/"]
  {
    if items[|items| - 1] != "/" then items + ["/"] else items
  }

  /** The answer of `require_auth(path, excluded_paths)`; `None` stands for
      Python's `None`. */
  function Decision(path: Option<string>, excluded: Option<seq<string>>): (v: Verdict)
    ensures path.None? ==> v == Decided(true)
    ensures excluded.None? || excluded == Some([]) ==> v == Decided(true)
    ensures v == IndexError <==> path == Some([]) && excluded.Some? && excluded.value != []
  {
    if path.None? then Decided(true)
    else if excluded.None? || |excluded.value| == 0 then Decided(true)
    else if path.value == [] then IndexError
    else Decided(Normalize(path.value) !in Extended(excluded.value))
  }

  /** The caller's list once `require_auth(path, items)` has returned or raised. */
  function ListAfter(path: Option<string>, items: seq<string>): (r: seq<string>)
    ensures path.None? || path == Some([]) || items == [] ==> r == items
    ensures r == items || r == items + ["/"]
    ensures path.Some? && path.value != [] && items != [] ==> r == Extended(items)
  {
    if path.None? || items == [] || path.value == [] then items else Extended(items)
  }

  /** `Auth.require_auth`, updating the caller's list in place as the source does. */
  method RequireAuth(path: Option<string>, excluded: PathList?) returns (v: Verdict)
    modifies excluded
    ensures v == Decision(path, if excluded == null then None else Some(old(excluded.items)))
    ensures excluded != null ==> excluded.items == ListAfter(path, old(excluded.items))
  {
    if path.None? {
      return Decided(true);
    }
    if excluded == null || |excluded.items| == 0 {
      return Decided(true);
    }
    var p := path.value;
    if |p| == 0 {
      return IndexError;
    }
    if p[|p| - 1] != '/' {
      p := p + "/";
    }
    if excluded.items[|excluded.items| - 1] != "/" {
      excluded.items := excluded.items + ["/"];
    }
    if p in excluded.items {
      return Decided(false);
    }
    return Decided(true);
  }

  /** A path without a trailing slash and the same path with one get the same
      answer and leave the list the same way. */
  lemma SlashedPathSameAnswer(p: string, excluded: Option<seq<string>>)
    requires p != [] && p[|p| - 1] != '/'
    ensures Decision(Some(p), excluded) == Decision(Some(p + "/"), excluded)
    ensures excluded.Some? ==>
      ListAfter(Some(p), excluded.value) == ListAfter(Some(p + "/"), excluded.value)
  {
    var q := p + "/";
    assert q[|q| - 1] == '/';
    assert Normalize(q) == q == Normalize(p);
  }

  /** Exemption in terms of the caller's original list: a path is exempt
      exactly when its slash-normalised form is an element of the list, or it
      is "/" itself (which the extension supplies). Equality is exact: no
      prefix or pattern matching. */
  lemma ExemptIff(p: string, items: seq<string>)
    requires p != [] && items != []
    ensures Decision(Some(p), Some(items)) == Decided(false) <==> p == "/" || Normalize(p) in items
  {
    var n := Normalize(p);
    assert n == "/" <==> p == "/" by {
      if p[|p| - 1] != '/' {
        assert |n| == |p| + 1 >= 2;
      }
    }
    var e := Extended(items);
    if items[|items| - 1] != "/" {
      assert e == items + ["/"];
      assert n in e <==> n in items || n == "/";
    } else {
      assert "/" in items;
    }
  }

  /** Whatever the non-empty list, "/" is exempt. */
  lemma RootAlwaysExempt(items: seq<string>)
    requires items != []
    ensures Decision(Some("/"), Some(items)) == Decided(false)
  {
    ExemptIff("/", items);
  }

  /** An excluded entry written without a trailing slash (say "/api/v1/status")
      matches no path: with it as the only entry, only "/" is exempt. */
  lemma UnslashedEntryExemptsOnlyRoot(p: string, e: string)
    requires p != []
    requires e == [] || e[|e| - 1] != '/'
    ensures Decision(Some(p), Some([e])) == Decided(p != "/")
  {
    ExemptIff(p, [e]);
    assert Normalize(p) != e;
  }

  /** An entry that ends in "/" exempts that path, and appending to the path
      takes the exemption away unless the longer path, with a trailing "/",
      is listed too. */
  lemma ExactMatchOnly(p: string, suffix: string, items: seq<string>)
    requires p != [] && p[|p| - 1] == '/' && p in items
    requires suffix != [] && suffix[|suffix| - 1] != '/'
    requires p + suffix + "/" !in items
    ensures Decision(Some(p), Some(items)) == Decided(false)
    ensures Decision(Some(p + suffix), Some(items)) == Decided(true)
  {
    ExemptIff(p, items);
    var q := p + suffix;
    assert q[|q| - 1] == suffix[|suffix| - 1];
    ExemptIff(q, items);
    assert |q| > 1;
  }

  /** The caller's list after a series of calls with the given paths. */
  function ListAfterCalls(paths: seq<Option<string>>, items: seq<string>): seq<string>
  {
    if paths == [] then items else ListAfterCalls(paths[1..], ListAfter(paths[0], items))
  }

  lemma {:induction false} ExtendedListStable(paths: seq<Option<string>>, items: seq<string>)
    requires items != [] && items[|items| - 1] == "/"
    ensures ListAfterCalls(paths, items) == items
  {
    if paths != [] {
      assert ListAfter(paths[0], items) == items;
      ExtendedListStable(paths[1..], items);
    }
  }

  /** Repeated calls add at most one "/" to the caller's list and change
      nothing else in it. */
  lemma {:induction false} RepeatedCallsAddAtMostOneSlash(paths: seq<Option<string>>, items: seq<string>)
    ensures ListAfterCalls(paths, items) == items || ListAfterCalls(paths, items) == items + ["/"]
  {
    if paths != [] {
      var next := ListAfter(paths[0], items);
      if next == items {
        RepeatedCallsAddAtMostOneSlash(paths[1..], items);
      } else {
        assert next == items + ["/"];
        ExtendedListStable(paths[1..], next);
      }
    }
  }

  /** `Auth.authorization_header`: `None` without a request, otherwise the
      value of the "Authorization" header, or `None` when it is absent. */
  function AuthorizationHeader(request: Option<Headers>): (h: Option<string>)
    ensures request.None? ==> h.None?
    ensures request.Some? ==> (h.Some? <==> "Authorization" in request.value)
    ensures h.Some? ==> request.Some? && h.value == request.value["Authorization"]
  {
    match request
    case None => None
    case Some(headers) => if "Authorization" in headers then Some(headers["Authorization"]) else None
  }

  /** `Auth.current_user`: the base class identifies nobody. */
  function CurrentUser<U>(request: Option<Headers>): (u: Option<U>)
    ensures u.None?
  {
    None
  }
}
