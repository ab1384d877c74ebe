/**
 * The snippet table as the views use it: a map from slug to snippet, the
 * expiry filter every lookup of the viewing and forking views applies, and the
 * two changes the views make, deletion by the author and an API post.
 */
module Snippets {
  import opened Wrappers
  import opened Http

  type Slug = string

  /** A stored snippet; `expires` is a timestamp, or None for a snippet that never expires. */
  datatype Snippet = Snippet(content: string, author: Option<UserId>, expires: Option<int>)

  type Store = map<Slug, Snippet>

  /** A model instance as a view holds it: the stored snippet together with its slug. */
  datatype Record = Record(slug: Slug, snippet: Snippet)

  /** Survives `exclude(expires__lte=now)`: SQL's NULL expiry is never `<= now`. */
  predicate Visible(s: Snippet, now: int)
  {
    s.expires.None? || now < s.expires.value
  }

  /** The queryset `Snippet.objects.exclude(expires__lte=now)`. */
  function Live(m: Store, now: int): Store
  {
    map slug | slug in m && Visible(m[slug], now) :: m[slug]
  }

  /** `filter(slug=slug).exclude(expires__lte=now).get()`: None where `get` raises DoesNotExist. */
  function Find(m: Store, slug: Slug, now: int): (r: Option<Snippet>)
    ensures r.Some? <==> slug in m && (m[slug].expires.None? || now < m[slug].expires.value)
    ensures r.Some? ==> r.value == m[slug]
  {
    var live := Live(m, now);
    if slug in live then Some(live[slug]) else None
  }

  /** The live snippets only shrink as time passes: once hidden by its expiry, a snippet stays hidden. */
  lemma HiddenStaysHidden(m: Store, slug: Slug, t: int, later: int)
    requires t <= later
    ensures Live(m, later).Keys <= Live(m, t).Keys
    ensures Find(m, slug, t).None? ==> Find(m, slug, later).None?
  {
  }

  /** `self.object.author == request.user`: an anonymous visitor is no author. */
  predicate Owns(user: Option<UserId>, s: Snippet)
  {
    user.Some? && s.author == user
  }

  /**
   * `DeleteSnippetView.delete`: the slug is looked up by Django's own
   * `get_object`, with no expiry filter and a 404 that does not name the slug;
   * the author's delete removes it and redirects home, anybody else's leaves
   * the store alone and redirects to the snippet with `?g`.
   */
  function DeleteOutcome(m: Store, slug: Slug, user: Option<UserId>): (r: (Store, Result<Target, HttpError>))
    ensures r.0 != m <==> slug in m && Owns(user, m[slug])
    ensures r.0 != m ==> r.0 == m - {slug} && r.1 == Ok(Home)
    ensures slug in m && !Owns(user, m[slug]) ==> r.1 == Ok(SnippetPage(slug, "g"))
    ensures r.1.Err? <==> slug !in m
    ensures r.1.Err? ==> r.1.error == NoMatch
  {
    if slug !in m then (m, Err(NoMatch))
    else if Owns(user, m[slug]) then (m - {slug}, Ok(Home))
    else (m, Ok(SnippetPage(slug, "g")))
  }

  /** Nobody can delete a snippet that was posted anonymously. */
  lemma AnonymousSnippetsSurvive(m: Store, slug: Slug, user: Option<UserId>)
    requires slug in m && m[slug].author.None?
    ensures DeleteOutcome(m, slug, user).0 == m
  {
  }

  /** A delete touches no other snippet. */
  lemma DeleteKeepsOthers(m: Store, slug: Slug, user: Option<UserId>, other: Slug, now: int)
    requires other != slug
    ensures Find(DeleteOutcome(m, slug, user).0, other, now) == Find(m, other, now)
  {
  }

  /** An author's delete hides the snippet from every later lookup. */
  lemma DeletedIsGone(m: Store, slug: Slug, user: Option<UserId>, now: int)
    requires slug in m && Owns(user, m[slug])
    ensures Find(DeleteOutcome(m, slug, user).0, slug, now).None?
  {
  }

  /** The author of an API post: the owner of the key given as `?api=`, if that key exists. */
  function ApiAuthor(q: Query, apiKeys: map<string, UserId>): (r: Option<UserId>)
    ensures r.Some? <==> Has(q, "api") && Lookup(q, "api").value in apiKeys
    ensures r.Some? ==> r.value == apiKeys[Lookup(q, "api").value]
  {
    match Lookup(q, "api")
    case Some(key) => if key in apiKeys then Some(apiKeys[key]) else None
    case None => None
  }

  /**
   * `IndexView.post`: without a `paste` field the answer is empty and nothing
   * is saved; with one, a snippet holding it is saved under the fresh slug and
   * the answer is its URL on `domain`.
   */
  function PostOutcome(m: Store, req: Request, apiKeys: map<string, UserId>, domain: string,
                       slug: Slug, expires: Option<int>): (r: (Store, string))
    ensures r.1 == "" <==> "paste" !in req.post
    ensures "paste" !in req.post ==> r.0 == m
    ensures "paste" in req.post ==>
      && r.0.Keys == m.Keys + {slug}
      && r.0[slug] == Snippet(req.post["paste"], ApiAuthor(req.get, apiKeys), expires)
      && (forall s :: s in m && s != slug ==> r.0[s] == m[s])
  {
    if "paste" !in req.post then (m, "")
    else
      (m[slug := Snippet(req.post["paste"], ApiAuthor(req.get, apiKeys), expires)],
       "http://" + domain + "/" + slug + "\n")
  }

  /** A post adds exactly one snippet, holding the posted text, and answers with its slug. */
  lemma PostAddsOne(m: Store, req: Request, apiKeys: map<string, UserId>, domain: string,
                    slug: Slug, expires: Option<int>)
    requires slug !in m
    ensures var (after, body) := PostOutcome(m, req, apiKeys, domain, slug, expires);
      && ("paste" !in req.post ==> after == m && body == "")
      && ("paste" in req.post ==>
            && after.Keys == m.Keys + {slug}
            && |after| == |m| + 1
            && after[slug].content == req.post["paste"]
            && after[slug].author == ApiAuthor(req.get, apiKeys)
            && (forall s :: s in m ==> after[s] == m[s])
            && body[|body| - |slug| - 1..] == slug + "\n")
  {
    if "paste" in req.post {
      var (after, body) := PostOutcome(m, req, apiKeys, domain, slug, expires);
      assert after.Keys == m.Keys + {slug};
      assert |after.Keys| == |m.Keys| + 1;
      assert body == ("http://" + domain + "/") + (slug + "\n");
    }
  }

  /** A posted snippet that has not expired is found under its slug, with its text. */
  lemma PostedIsFound(m: Store, req: Request, apiKeys: map<string, UserId>, domain: string,
                      slug: Slug, expires: Option<int>, now: int)
    requires "paste" in req.post
    requires expires.None? || now < expires.value
    ensures var found := Find(PostOutcome(m, req, apiKeys, domain, slug, expires).0, slug, now);
      found.Some? && found.value.content == req.post["paste"]
  {
  }

  /** The database table; `Remove` and `Save` are the ORM's `delete()` and `save()`. */
  class SnippetStore {
    var snippets: Store

    constructor (initial: Store)
      ensures snippets == initial
    {
      snippets := initial;
    }

    method Remove(slug: Slug)
      modifies this
      ensures snippets == old(snippets) - {slug}
    {
      snippets := snippets - {slug};
    }

    method Save(slug: Slug, s: Snippet)
      modifies this
      ensures snippets == old(snippets)[slug := s]
    {
      snippets := snippets[slug := s];
    }
  }
}
