/**
 * The parts of a Django request and response the views look at: the query
 * string (an ordered list of distinct keys with their values), the POST
 * fields, the user, the URL captures, and the errors and redirects a view
 * can answer with.
 */
module Http {
  import opened Wrappers

  /** A user account; anonymous visitors have none. */
  type UserId = nat

  /** One query-string parameter, with the value `request.GET[key]` gives. */
  datatype Param = Param(key: string, value: string)

  /** `request.GET`, its keys in the order `keys()` lists them. */
  type Query = seq<Param>

  datatype Request = Request(get: Query, post: map<string, string>, user: Option<UserId>)

  /**
   * The errors a view raises: `Http404` naming a slug, Django's generic
   * `Http404` "no snippet found matching the query" (which names none), or the
   * `KeyError`/`AttributeError` of a missing URL capture.
   */
  datatype HttpError = NotFound(slug: string) | NoMatch | MissingCapture(name: string)

  /** Where a redirect points: the site root, or a snippet's page with a query string. */
  datatype Target = Home | SnippetPage(slug: string, query: string)

  predicate Distinct(s: seq<string>)
  {
    forall i, j :: 0 <= i < j < |s| ==> s[i] != s[j]
  }

  /** `request.GET.keys()`. */
  function Keys(q: Query): (ks: seq<string>)
    ensures |ks| == |q|
    ensures forall i :: 0 <= i < |q| ==> ks[i] == q[i].key
  {
    seq(|q|, i requires 0 <= i < |q| => q[i].key)
  }

  /** A query string is a dictionary: no key appears twice. */
  predicate WellFormed(q: Query)
  {
    Distinct(Keys(q))
  }

  /** `key in request.GET`. */
  predicate Has(q: Query, key: string)
  {
    key in Keys(q)
  }

  /** `request.GET[key]`, or None where the key is absent. */
  function Lookup(q: Query, key: string): (r: Option<string>)
    ensures r.Some? <==> Has(q, key)
    ensures r.Some? ==> exists i :: 0 <= i < |q| && q[i] == Param(key, r.value)
  {
    if q == [] then None
    else if q[0].key == key then Some(q[0].value)
    else
      var r := Lookup(q[1..], key);
      assert Keys(q) == [q[0].key] + Keys(q[1..]);
      assert r.Some? ==> exists i :: 0 <= i < |q[1..]| && q[1..][i] == Param(key, r.value);
      assert r.Some? ==> exists i :: 1 <= i < |q| && q[i] == Param(key, r.value);
      r
  }
}
