/**
 * The request handlers of paste/views.py: viewing a snippet (rendered or
 * raw), diffing two, the paste form with its fork and lexer handling, the
 * author's delete and the API post. Library calls the views make, and the
 * time of the request, come in through `Env`.
 */
module Views {
  import opened Wrappers
  import opened Http
  import opened Snippets
  import opened Rendering
  import LexerParam
  import LexerChoices

  /**
   * What the views take from outside: the request time, the optional
   * libraries, Pygments, the 80-column `textwrap` reflow, `str(snippet)`,
   * and the `difflib` unified diff joined with newlines, which takes each
   * side's slug (its file name in the header) and text.
   */
  datatype Env = Env(
    now: int,
    libs: Libraries,
    py: Pygments,
    wrap: string -> string,
    show: Record -> string,
    unifiedDiff: (Slug, string, Slug, string) -> string)

  /** The page a view answers with. */
  datatype Response =
    | PlainText(body: string)                                    // text/plain; charset=UTF-8
    | Page(record: Record, content: string, processed: Rendered, lexer: Option<string>)
    | Failed(error: HttpError)

  /** The URL capture `get_object` reads: the one asked for if present, else `a`. */
  function SlugField(kwargs: map<string, string>, slugField: string): (f: string)
    ensures f == slugField || f == "a"
    ensures slugField in kwargs ==> f == slugField
    ensures f in kwargs <==> slugField in kwargs || "a" in kwargs
  {
    if slugField in kwargs then slugField else "a"
  }

  /** `SnippetView.get_object(slug_field)`. */
  function GetObject(kwargs: map<string, string>, slugField: string, m: Store, now: int): (r: Result<Record, HttpError>)
    ensures var f := SlugField(kwargs, slugField);
      && (r.Ok? <==> f in kwargs && kwargs[f] in m && Visible(m[kwargs[f]], now))
      && (r.Ok? ==> r.value == Record(kwargs[f], m[kwargs[f]]))
      && (r.Err? && f in kwargs ==> r.error == NotFound(kwargs[f]))
      && (f !in kwargs ==> r == Err(MissingCapture("a")))
  {
    var f := SlugField(kwargs, slugField);
    if f !in kwargs then Err(MissingCapture(f))
    else match Find(m, kwargs[f], now)
      case Some(s) => Ok(Record(kwargs[f], s))
      case None => Err(NotFound(kwargs[f]))
  }

  /** `SnippetView.get_content`: the stored text, reflowed when `?wrap` is given. */
  function SnippetContent(req: Request, kwargs: map<string, string>, m: Store, env: Env): (r: Result<string, HttpError>)
    ensures r.Err? <==> GetObject(kwargs, "slug", m, env.now).Err?
    ensures r.Err? ==> r.error == GetObject(kwargs, "slug", m, env.now).error
    ensures r.Ok? ==> var stored := m[kwargs[SlugField(kwargs, "slug")]].content;
      r.value == if Has(req.get, "wrap") then env.wrap(stored) else stored
  {
    match GetObject(kwargs, "slug", m, env.now)
    case Err(e) => Err(e)
    case Ok(s) => Ok(if Has(req.get, "wrap") then env.wrap(s.snippet.content) else s.snippet.content)
  }

  /**
   * The text `DiffMixin.get_content` returns once both snippets are loaded:
   * the "are the same." message for equal texts, else the unified diff of the
   * two texts under their slugs.
   */
  function DiffText(a: Record, b: Record, env: Env): (r: string)
    ensures a.snippet.content == b.snippet.content ==> r == env.show(a) + " and " + env.show(b) + " are the same."
    ensures a.snippet.content != b.snippet.content ==>
      r == env.unifiedDiff(a.slug, a.snippet.content, b.slug, b.snippet.content)
  {
    if a.snippet.content == b.snippet.content then env.show(a) + " and " + env.show(b) + " are the same."
    else env.unifiedDiff(a.slug, a.snippet.content, b.slug, b.snippet.content)
  }

  /** `DiffMixin.get_content`: load `a`, then `b`, then compare. */
  function DiffContent(kwargs: map<string, string>, m: Store, env: Env): (r: Result<string, HttpError>)
    ensures r.Ok? <==> GetObject(kwargs, "a", m, env.now).Ok? && GetObject(kwargs, "b", m, env.now).Ok?
    ensures r.Err? && GetObject(kwargs, "a", m, env.now).Err? ==> r.error == GetObject(kwargs, "a", m, env.now).error
    ensures r.Err? && GetObject(kwargs, "a", m, env.now).Ok? ==> r.error == GetObject(kwargs, "b", m, env.now).error
    ensures r.Ok? ==> var fa, fb := SlugField(kwargs, "a"), SlugField(kwargs, "b");
      r.value == DiffText(Record(kwargs[fa], m[kwargs[fa]]), Record(kwargs[fb], m[kwargs[fb]]), env)
  {
    match GetObject(kwargs, "a", m, env.now)
    case Err(e) => Err(e)
    case Ok(a) =>
      match GetObject(kwargs, "b", m, env.now)
      case Err(e) => Err(e)
      case Ok(b) => Ok(DiffText(a, b, env))
  }

  function Content(isDiff: bool, req: Request, kwargs: map<string, string>, m: Store, env: Env): Result<string, HttpError>
  {
    if isDiff then DiffContent(kwargs, m, env) else SnippetContent(req, kwargs, m, env)
  }

  /** `SnippetView.get` (and `DiffView.get`): raw text without a query string, else the rendered page. */
  function Respond(isDiff: bool, req: Request, kwargs: map<string, string>, m: Store, env: Env): (r: Response)
    ensures r.PlainText? <==> |req.get| == 0 && Content(isDiff, req, kwargs, m, env).Ok?
    ensures r.PlainText? ==> r.body == Content(isDiff, req, kwargs, m, env).value
    ensures r.Page? <==>
      |req.get| > 0 && Content(isDiff, req, kwargs, m, env).Ok? && GetObject(kwargs, "slug", m, env.now).Ok?
    ensures r.Page? ==>
      && r.content == Content(isDiff, req, kwargs, m, env).value
      && r.record == GetObject(kwargs, "slug", m, env.now).value
      && r.lexer == LexerParam.Selected(Keys(req.get), ["wrap"])
      && r.processed == Process(r.lexer, env.libs, env.py, r.content)
    ensures Content(isDiff, req, kwargs, m, env).Err? ==> r == Failed(Content(isDiff, req, kwargs, m, env).error)
  {
    match Content(isDiff, req, kwargs, m, env)
    case Err(e) => Failed(e)
    case Ok(content) =>
      if |req.get| == 0 then PlainText(content)
      else match GetObject(kwargs, "slug", m, env.now)
        case Err(e) => Failed(e)
        case Ok(s) =>
          var name := LexerParam.Selected(Keys(req.get), ["wrap"]);
          Page(s, content, Process(name, env.libs, env.py, content), name)
  }

  /** A single snippet is shown exactly when its slug names a stored snippet that has not expired. */
  lemma ShownIffVisible(req: Request, kwargs: map<string, string>, m: Store, env: Env)
    requires "slug" in kwargs
    ensures !Respond(false, req, kwargs, m, env).Failed? <==>
      kwargs["slug"] in m && Visible(m[kwargs["slug"]], env.now)
    ensures Respond(false, req, kwargs, m, env).Failed? ==>
      Respond(false, req, kwargs, m, env).error == NotFound(kwargs["slug"])
  {
  }

  /** A diff is shown exactly when both of its slugs name stored snippets that have not expired. */
  lemma DiffShownIffBothVisible(req: Request, kwargs: map<string, string>, m: Store, env: Env)
    requires "a" in kwargs && "b" in kwargs && "slug" !in kwargs
    ensures !Respond(true, req, kwargs, m, env).Failed? <==>
      && kwargs["a"] in m && Visible(m[kwargs["a"]], env.now)
      && kwargs["b"] in m && Visible(m[kwargs["b"]], env.now)
  {
  }

  /** Without a query string the answer is the stored text itself, unrendered and unescaped. */
  lemma RawWithoutQuery(req: Request, kwargs: map<string, string>, m: Store, env: Env)
    requires |req.get| == 0 && "slug" in kwargs
    requires kwargs["slug"] in m && Visible(m[kwargs["slug"]], env.now)
    ensures Respond(false, req, kwargs, m, env) == PlainText(m[kwargs["slug"]].content)
  {
    assert !Has(req.get, "wrap");
  }

  /** With any query string the answer is the rendered page, never raw text. */
  lemma RenderedWithQuery(isDiff: bool, req: Request, kwargs: map<string, string>, m: Store, env: Env)
    requires |req.get| > 0
    ensures !Respond(isDiff, req, kwargs, m, env).PlainText?
  {
  }

  /** `?wrap` alone asks for no lexer: the page is guessed (or Python), never looked up by name. */
  lemma WrapAloneGuesses(req: Request, kwargs: map<string, string>, m: Store, env: Env, v: string)
    requires req.get == [Param("wrap", v)]
    ensures var r := Respond(false, req, kwargs, m, env);
      r.Page? ==>
        && r.lexer.None?
        && !r.processed.MarkdownHtml? && !r.processed.RestructuredHtml?
        && (r.processed.Highlighted? ==> !r.processed.lexer.Named?)
  {
    LexerParam.SelectedSpec(Keys(req.get), ["wrap"]);
  }

  /** Two snippets with the same text are reported the same; the diff tool is not consulted. */
  lemma SameContentShortCircuits(a: Record, b: Record, env: Env, other: (Slug, string, Slug, string) -> string)
    requires a.snippet.content == b.snippet.content
    ensures DiffText(a, b, env) == DiffText(a, b, env.(unifiedDiff := other))
    ensures DiffText(a, b, env) == env.show(a) + " and " + env.show(b) + " are the same."
  {
  }

  /** Two stored, unexpired snippets with different texts are diffed under their own slugs. */
  lemma DifferentContentIsDiffed(kwargs: map<string, string>, m: Store, env: Env)
    requires "a" in kwargs && "b" in kwargs
    requires kwargs["a"] in m && Visible(m[kwargs["a"]], env.now)
    requires kwargs["b"] in m && Visible(m[kwargs["b"]], env.now)
    requires m[kwargs["a"]].content != m[kwargs["b"]].content
    ensures DiffContent(kwargs, m, env) ==
      Ok(env.unifiedDiff(kwargs["a"], m[kwargs["a"]].content, kwargs["b"], m[kwargs["b"]].content))
  {
  }

  /** A diff URL without a `b` capture compares `a` with itself, so it is always "the same". */
  lemma DiffWithoutB(kwargs: map<string, string>, m: Store, env: Env)
    requires "a" in kwargs && "b" !in kwargs
    requires kwargs["a"] in m && Visible(m[kwargs["a"]], env.now)
    ensures var s := Record(kwargs["a"], m[kwargs["a"]]);
      DiffContent(kwargs, m, env) == Ok(env.show(s) + " and " + env.show(s) + " are the same.")
  {
  }

  /** The view object: `content`, `lexer_name`, `a` and `b` are the attributes the handlers set. */
  class SnippetView {
    const isDiff: bool
    var content: string
    var lexerName: Option<string>
    var a: Option<Record>
    var b: Option<Record>

    constructor (isDiff: bool)
      ensures this.isDiff == isDiff
      ensures content == "" && lexerName.None? && a.None? && b.None?
    {
      this.isDiff := isDiff;
      content := "";
      lexerName := None;
      a := None;
      b := None;
    }

    /** `get_content`: for a diff view it stores each snippet in `a` and `b` as it loads it. */
    method GetContent(req: Request, kwargs: map<string, string>, m: Store, env: Env)
      returns (r: Result<string, HttpError>)
      modifies this`a, this`b
      ensures r == Content(isDiff, req, kwargs, m, env)
      ensures !isDiff ==> a == old(a) && b == old(b)
      ensures isDiff ==>
        a == (match GetObject(kwargs, "a", m, env.now) case Ok(s) => Some(s) case Err(_) => old(a))
      ensures isDiff ==>
        b == (match (GetObject(kwargs, "a", m, env.now), GetObject(kwargs, "b", m, env.now))
              case (Ok(_), Ok(s)) => Some(s)
              case _ => old(b))
    {
      if !isDiff {
        r := SnippetContent(req, kwargs, m, env);
        return;
      }
      var ra := GetObject(kwargs, "a", m, env.now);
      if ra.Err? {
        return Err(ra.error);
      }
      a := Some(ra.value);
      var rb := GetObject(kwargs, "b", m, env.now);
      if rb.Err? {
        return Err(rb.error);
      }
      b := Some(rb.value);
      r := Ok(DiffText(ra.value, rb.value, env));
    }

    /** `get_processed_content`: sets `lexer_name` from the query, then picks the renderer. */
    method GetProcessedContent(req: Request, env: Env) returns (r: Rendered)
      requires WellFormed(req.get)
      modifies this`lexerName
      ensures lexerName == LexerParam.Selected(Keys(req.get), ["wrap"])
      ensures r == Process(lexerName, env.libs, env.py, content)
    {
      lexerName := LexerParam.GetLexer(req.get, ["wrap"]);
      r := Process(lexerName, env.libs, env.py, content);
    }

    /**
     * `get`: sets `content` (and, for a diff, `a` and `b`, the diff page's
     * context entries), then answers raw or rendered.
     */
    method Get(req: Request, kwargs: map<string, string>, m: Store, env: Env) returns (resp: Response)
      requires WellFormed(req.get)
      modifies this`content, this`lexerName, this`a, this`b
      ensures resp == Respond(isDiff, req, kwargs, m, env)
      ensures resp.Page? ==> content == resp.content && lexerName == resp.lexer
      ensures resp.PlainText? ==> content == resp.body && lexerName == old(lexerName)
      ensures Content(isDiff, req, kwargs, m, env).Err? ==> content == old(content) && lexerName == old(lexerName)
      ensures !isDiff ==> a == old(a) && b == old(b)
      ensures isDiff ==>
        a == (match GetObject(kwargs, "a", m, env.now) case Ok(s) => Some(s) case Err(_) => old(a))
      ensures isDiff ==>
        b == (match (GetObject(kwargs, "a", m, env.now), GetObject(kwargs, "b", m, env.now))
              case (Ok(_), Ok(s)) => Some(s)
              case _ => old(b))
      ensures isDiff && !resp.Failed? ==>
        && "a" in kwargs
        && a == Some(Record(kwargs["a"], m[kwargs["a"]]))
        && b == Some(Record(kwargs[SlugField(kwargs, "b")], m[kwargs[SlugField(kwargs, "b")]]))
    {
      var r := GetContent(req, kwargs, m, env);
      if r.Err? {
        return Failed(r.error);
      }
      content := r.value;
      if |req.get| == 0 {
        return PlainText(content);
      }
      var found := GetObject(kwargs, "slug", m, env.now);
      if found.Err? {
        return Failed(found.error);
      }
      var processed := GetProcessedContent(req, env);
      resp := Page(found.value, content, processed, lexerName);
    }
  }

  /** The content of the paste form after `?fork=<slug>`: None without `fork`, 404 for a slug not visible. */
  function ForkPrefill(q: Query, m: Store, now: int): (r: Result<Option<string>, HttpError>)
    ensures r.Err? <==> Has(q, "fork") && Find(m, Lookup(q, "fork").value, now).None?
    ensures r.Err? ==> r.error == NotFound(Lookup(q, "fork").value)
    ensures r == Ok(None) <==> !Has(q, "fork")
    ensures r.Ok? && r.value.Some? ==>
      && Lookup(q, "fork").Some?
      && var slug := Lookup(q, "fork").value;
         slug in m && Visible(m[slug], now) && r.value.value == m[slug].content
  {
    match Lookup(q, "fork")
    case None => Ok(None)
    case Some(slug) =>
      match Find(m, slug, now)
      case Some(s) => Ok(Some(s.content))
      case None => Err(NotFound(slug))
  }

  /** Forking a freshly posted snippet that has not expired prefills the form with the posted text. */
  lemma ForkOfPostedSnippet(q: Query, m: Store, req: Request, apiKeys: map<string, UserId>, domain: string,
                            slug: Slug, expires: Option<int>, now: int)
    requires Lookup(q, "fork") == Some(slug)
    requires "paste" in req.post && (expires.None? || now < expires.value)
    ensures ForkPrefill(q, PostOutcome(m, req, apiKeys, domain, slug, expires).0, now) ==
      Ok(Some(req.post["paste"]))
  {
  }

  /** The paste form: the initial content and lexer, and the lexer field's choices. */
  class SnippetForm {
    var contentInitial: Option<string>
    var lexerInitial: Option<string>
    var lexerChoices: seq<LexerChoices.Choice>

    constructor (choices: seq<LexerChoices.Choice>)
      ensures contentInitial.None? && lexerInitial.None? && lexerChoices == choices
    {
      contentInitial := None;
      lexerInitial := None;
      lexerChoices := choices;
    }

    /** The `if lexer_name:` block of `get_form`: preselect the lexer and offer it as a choice. */
    method OfferLexer(name: Option<string>, byName: string -> Option<string>)
      modifies this
      ensures contentInitial == old(contentInitial)
      ensures name.Some? && name.value != "" ==>
        lexerInitial == name && lexerChoices == LexerChoices.WithLexer(old(lexerChoices), name.value, byName)
      ensures !(name.Some? && name.value != "") ==>
        lexerInitial == old(lexerInitial) && lexerChoices == old(lexerChoices)
    {
      if name.Some? && name.value != "" {
        lexerInitial := name;
        var found := LexerChoices.FindChoice(lexerChoices, name.value);
        if found {
          return;
        }
        match byName(name.value) {
          case Some(display) =>
            lexerChoices := [LexerChoices.Choice(name.value, display)] + lexerChoices;
          case None =>
        }
      }
    }
  }

  /** `AddSnippetView.get_form`: a fresh form, prefilled from `?fork=`, with the requested lexer offered. */
  method GetForm(req: Request, m: Store, now: int, byName: string -> Option<string>,
                 choices: seq<LexerChoices.Choice>) returns (r: Result<SnippetForm, HttpError>)
    requires WellFormed(req.get)
    ensures r.Err? <==> ForkPrefill(req.get, m, now).Err?
    ensures r.Err? ==> r.error == ForkPrefill(req.get, m, now).error
    ensures r.Ok? ==> fresh(r.value) && r.value.contentInitial == ForkPrefill(req.get, m, now).value
    ensures r.Ok? ==> var name := LexerParam.Selected(Keys(req.get), ["fork"]);
      if name.Some? && name.value != "" then
        r.value.lexerInitial == name && r.value.lexerChoices == LexerChoices.WithLexer(choices, name.value, byName)
      else
        r.value.lexerInitial.None? && r.value.lexerChoices == choices
  {
    var form := new SnippetForm(choices);
    var prefill := ForkPrefill(req.get, m, now);
    if prefill.Err? {
      return Err(prefill.error);
    }
    form.contentInitial := prefill.value;
    var name := LexerParam.GetLexer(req.get, ["fork"]);
    form.OfferLexer(name, byName);
    r := Ok(form);
  }

  /** `DeleteSnippetView.delete`. */
  method DeleteSnippet(store: SnippetStore, kwargs: map<string, string>, req: Request)
    returns (r: Result<Target, HttpError>)
    modifies store
    ensures "slug" !in kwargs ==> r == Err(MissingCapture("slug")) && store.snippets == old(store.snippets)
    ensures "slug" in kwargs ==>
      (store.snippets, r) == DeleteOutcome(old(store.snippets), kwargs["slug"], req.user)
  {
    if "slug" !in kwargs {
      return Err(MissingCapture("slug"));
    }
    var slug := kwargs["slug"];
    if slug !in store.snippets {
      return Err(NoMatch);
    }
    if Owns(req.user, store.snippets[slug]) {
      store.Remove(slug);
      return Ok(Home);
    }
    r := Ok(SnippetPage(slug, "g"));
  }

  /**
   * `AddSnippetView.form_valid`: the form's snippet is saved under the fresh
   * slug, authored by the user when one is logged in, and the browser is sent
   * to it with the chosen lexer as query string.
   */
  method FormValid(store: SnippetStore, req: Request, content: string, lexer: string,
                   slug: Slug, expires: Option<int>) returns (r: Target)
    requires slug !in store.snippets
    modifies store
    ensures store.snippets == old(store.snippets)[slug := Snippet(content, req.user, expires)]
    ensures r == SnippetPage(slug, lexer)
  {
    store.Save(slug, Snippet(content, req.user, expires));
    r := SnippetPage(slug, lexer);
  }

  /** `IndexView.post`, with `slug` the fresh slug the model's `save` assigns and `expires` its default expiry. */
  method IndexPost(store: SnippetStore, req: Request, apiKeys: map<string, UserId>, domain: string,
                   slug: Slug, expires: Option<int>) returns (body: string)
    requires slug !in store.snippets
    modifies store
    ensures (store.snippets, body) == PostOutcome(old(store.snippets), req, apiKeys, domain, slug, expires)
  {
    var author := ApiAuthor(req.get, apiKeys);
    if "paste" !in req.post {
      return "";
    }
    store.Save(slug, Snippet(req.post["paste"], author, expires));
    body := "http://" + domain + "/" + slug + "\n";
  }
}
