# snippt request handling, modelled in Dafny

snippt is a pastebin: visitors paste text, get a short URL (a *slug*), and
view the snippet as raw text, with Pygments syntax highlighting, or rendered
as Markdown or reStructuredText. A snippet can be forked into a new paste,
two snippets can be diffed, snippets may expire, an author may delete their
own snippets, and an API key lets scripts post pastes.

This project models the decision logic of the request handlers in
`paste/views.py` and proves what each handler promises. The libraries those
handlers call are oracles (parameters): whether Markdown and docutils could
be imported, which lexer aliases Pygments knows, what `guess_lexer` makes of
the text, whether `highlight` succeeds, the `textwrap` reflow, `str()` of a
snippet and the `difflib` unified diff. The snippet table is a map from slug
to snippet, with integer timestamps for expiry.

Modules, one file each:

- `Wrappers` (`wrappers.dfy`): `Option` and `Result`.
- `Text` (`text.dfy`): `str.lower()` on the lexer name, and Django's `escape`
  (the five replacements `&`, `<`, `>`, `"`, `'`) with its inverse.
- `Http` (`http.dfy`): the query string as an ordered list of distinct keys
  with their values, POST fields, the user, errors (`Http404`, a missing
  URL capture) and redirect targets.
- `LexerParam` (`lexer_param.dfy`): `get_lexer`, a method that removes the
  excluded keys from its key list in a loop, proved against the reference
  function `Selected` (first key not excluded, lower-cased).
- `Rendering` (`rendering.dfy`): `get_processed_content` as the total
  function `Process`, with `ChooseLexer` for its try/except lexer chain.
- `LexerChoices` (`lexer_choices.dfy`): the choice-list scan of `get_form`
  (`FindChoice`, a loop) and the reference `WithLexer` for the insertion.
- `Snippets` (`snippets.dfy`): the snippet record, the expiry filter
  (`Live`, `Find`), the delete and API-post rules as functions of the store
  (`DeleteOutcome`, `PostOutcome`), and the class `SnippetStore` whose
  `Remove` and `Save` stand for the ORM's `delete()` and `save()`.
- `Views` (`views.dfy`): the handlers. `SnippetView` is a class with the
  attributes the source sets (`content`, `lexer_name`, `a`, `b`) and one
  constant saying whether it is the diff view; its methods are proved equal
  to the reference functions `Content` and `Respond`. `SnippetForm` is a
  class with the initial content, initial lexer and lexer choices that
  `get_form` changes. `DeleteSnippet`, `FormValid` and `IndexPost` change a
  `SnippetStore`; `DeleteSnippet` and `IndexPost` are proved equal to the
  store rules `DeleteOutcome` and `PostOutcome`, and `FormValid` states the
  new map directly.

Edge cases of the code that the model keeps:

- A query key that is the empty string counts as "no lexer": `elif self.lexer_name:`
  sends it to guessing, and `if lexer_name:` in `get_form` skips the lexer block.
- `?g`/`?guess` whose guess fails reaches the `except` branch, which guesses
  again on the same text; the model treats `guess_lexer` as deterministic, so
  that branch ends on `PythonLexer`.
- `get_object` reads the `a` capture when the one asked for is absent, so the
  code would compare `a` with itself for a diff without a `b` capture, and
  without an `a` capture either, building the 404 message raises a `KeyError`
  (`MissingCapture`). The only diff route (pasteapp/urls.py:14) captures both
  `a` and `b`, so routing never reaches these cases; the model keeps them as
  code behaviour.
- Delete uses Django's own `get_object`, without the expiry filter, so an
  author can delete an expired snippet. An anonymous user is never equal to an
  author, so snippets posted anonymously can never be deleted.
- `?wrap` on its own is a non-empty query string: it gives the rendered page,
  with no lexer name, so the text is guessed.

## Model

| member | source | states |
|---|---|---|
| `Text.Lower` | paste/views.py:45 | lower-casing keeps the length, leaves no capital, turns each capital into its small letter and keeps every other character |
| `Text.LowerIdempotent` | paste/views.py:45 | lower-casing an already lower-cased name changes nothing |
| `Text.Escape` | paste/views.py:197 | escaping never shortens the text and leaves text without `&`, `<`, `>`, `"`, `'` unchanged |
| `Text.EscapeHasNoMarkup` | paste/views.py:197 | escaped text contains none of `<`, `>`, `"`, `'` |
| `Text.UnescapeEscape` | paste/views.py:197 | escaping loses nothing: unescaping the escaped text gives the content back |
| `Http.Lookup` | paste/views.py:79 | `GET[key]` exists exactly when the key is present, and is that parameter's value |
| `LexerParam.RemoveFirst` | paste/views.py:42 | `list.remove(x)` takes out the element at the first index holding `x` and keeps the rest in order |
| `LexerParam.Kept` | paste/views.py:39-42 | the kept keys are exactly the keys not in the exclude list |
| `LexerParam.FirstKeptNone` | paste/views.py:44-47 | there is no lexer key exactly when every key is excluded, also when there are no keys |
| `LexerParam.FirstKeptIsFirst` | paste/views.py:39-45 | the selected key is the key at the first index not excluded, in both directions |
| `LexerParam.SelectedSpec` | paste/views.py:36-47 | `get_lexer` gives None iff every key is excluded, else the first non-excluded key lower-cased; exclusion is tested before lower-casing |
| `LexerParam.KeptStep` | paste/views.py:40-42 | one `remove` of an excluded key from distinct keys drops exactly that key |
| `LexerParam.FirstIndex` | paste/views.py:41-42 | the index `remove` acts on holds `x`, and no earlier index does |
| `LexerParam.KeptPrefixStep` | paste/views.py:40-42 | after the first `i` excluded keys, the next pass of the loop leaves the keys kept by the first `i + 1` |
| `LexerParam.DropExcluded` | paste/views.py:39-42 | the `for x in exclude` loop leaves exactly `Kept(keys, exclude)`, the keys not excluded, in order |
| `LexerParam.SelectedIsHeadOfKept` | paste/views.py:44-47 | the head of the kept keys, lower-cased, is `Selected`; None exactly when every query key is excluded |
| `LexerParam.GetLexer` | paste/views.py:36-47 | the in-place loop returns `Selected(keys, exclude)`, None exactly when every key is excluded |
| `Rendering.ChooseLexer` | paste/views.py:181-192 | a named lexer exactly for a non-empty, non-guess name Pygments knows; otherwise the guessed lexer when guessing succeeds; otherwise `PythonLexer` |
| `Rendering.Process` | paste/views.py:171-197 | Markdown iff Markdown is importable and the name is `markdown`/`md`; reST iff docutils is importable and the name is `rrst`; else highlighted with `ChooseLexer`'s lexer when highlighting succeeds, else the escaped content |
| `Rendering.EscapedIsInert` | paste/views.py:194-197 | when highlighting fails the output is the escaped content: no markup character, and it unescapes to the content |
| `Rendering.MissingLibraryFallsThrough` | paste/views.py:174-179 | without Markdown and docutils, `md`, `markdown` and `rrst` go to the Pygments lookup like any name |
| `Rendering.LibrariesMatterOnlyForTheirNames` | paste/views.py:174-179 | for every other name the result does not depend on which libraries are importable |
| `LexerChoices.FindChoice` | paste/views.py:94-96 | the scan finds the name exactly when some choice has it as key |
| `LexerChoices.WithLexer` | paste/views.py:94-102 | after the offer the name is a choice iff it was one or Pygments resolves it |
| `LexerChoices.WithLexerShape` | paste/views.py:94-102 | the list is unchanged, or the name was no key, resolves, and `(name, display name)` is put in front of the old list |
| `LexerChoices.WithLexerIdempotent` | paste/views.py:94-102 | offering the same name twice equals offering it once |
| `LexerChoices.WithLexerKeepsKeysDistinct` | paste/views.py:98-100 | inserting never duplicates a key |
| `Snippets.Find` | paste/views.py:153-159 | a lookup succeeds iff the slug is stored and has no expiry or `now < expires`, and then gives the stored snippet |
| `Snippets.HiddenStaysHidden` | paste/views.py:154 | the live snippets only shrink as time passes: a snippet hidden by expiry stays hidden |
| `Snippets.DeleteOutcome` | paste/views.py:64-69 | the store changes iff the user is the author, then loses exactly that slug and redirects home; otherwise it redirects to the snippet with `?g`; iff it is not stored (no expiry filter), Django's generic 404 that names no slug |
| `Snippets.AnonymousSnippetsSurvive` | paste/views.py:66 | a snippet without author is never deleted |
| `Snippets.DeleteKeepsOthers` | paste/views.py:66-67 | a delete changes no other slug's lookup |
| `Snippets.DeletedIsGone` | paste/views.py:66-67 | after the author's delete the slug is not found |
| `Snippets.ApiAuthor` | paste/views.py:120-126 | the author is the owner of the `?api` key when that key exists, and None without `?api` or for an unknown key |
| `Snippets.PostOutcome` | paste/views.py:128-136 | the answer is empty iff there is no `paste` field, and then the store is unchanged; otherwise the slug is added holding the posted text, the API author and the expiry, and no other snippet changes |
| `Snippets.PostAddsOne` | paste/views.py:128-136 | without `paste` the answer is `''` and the store is unchanged; with it, for a fresh slug, exactly one snippet is added, holding the text and authored by the API key's owner, the others untouched, and the answer ends with the slug and a newline |
| `Snippets.PostedIsFound` | paste/views.py:131-132 | a posted snippet that has not expired is found under its slug with the posted text |
| `Snippets.SnippetStore.Remove` | paste/views.py:67 | the store loses the slug |
| `Snippets.SnippetStore.Save` | paste/views.py:132 | the store maps the slug to the snippet |
| `Views.SlugField` | paste/views.py:150-152 | the capture read is the one asked for when present, else `a`; it is present iff either is |
| `Views.GetObject` | paste/views.py:150-161 | the capture used is the one asked for, else `a`; success iff that slug is stored and visible, giving the snippet with its slug; 404 naming the slug otherwise; a missing capture is an error |
| `Views.SnippetContent` | paste/views.py:163-169 | fails exactly as `get_object` does; otherwise the stored text, reflowed iff `wrap` is in the query |
| `Views.DiffText` | paste/views.py:219-224 | equal texts give "<a> and <b> are the same."; different texts give the unified diff of the two texts under their slugs |
| `Views.DiffContent` | paste/views.py:215-224 | succeeds iff both `get_object('a')` and `get_object('b')` do, failing with `a`'s error when `a` does not load and otherwise with `b`'s (the 404 naming `b`'s slug); the text is `DiffText` of the two loaded snippets with their slugs |
| `Views.Respond` | paste/views.py:199-205 | plain text iff the query string is empty and the content loads, and then the body is the content; otherwise a page with the content, the object, `get_lexer(request, ['wrap'])` and `Process` of both; a content error is passed on |
| `Views.ShownIffVisible` | paste/views.py:150-161 | a snippet page is answered iff the slug is stored and not expired, else 404 for that slug |
| `Views.DiffShownIffBothVisible` | paste/views.py:215-217 | a diff is answered iff both slugs are stored and not expired |
| `Views.RawWithoutQuery` | paste/views.py:202-205 | with no query string the answer is the stored text as plain text |
| `Views.RenderedWithQuery` | paste/views.py:202-203 | with any query string the answer is never plain text |
| `Views.WrapAloneGuesses` | paste/views.py:166-172 | `?wrap` alone renders with no lexer name: neither Markdown, reST nor a named lexer |
| `Views.SameContentShortCircuits` | paste/views.py:219-220 | equal contents give the "are the same." message whatever the diff tool does |
| `Views.DifferentContentIsDiffed` | paste/views.py:222-224 | two visible snippets with different texts give the unified diff of their texts, named by their own slugs |
| `Views.DiffWithoutB` | paste/views.py:150-152 | a diff URL without `b` compares `a` with itself and is always "the same" (code behaviour; the diff route always captures `b`) |
| `Views.SnippetView.GetContent` | paste/views.py:163-169 | the content is the stored (optionally reflowed) text, or for a diff the diff text; `a` and `b` are set as each loads |
| `Views.SnippetView.GetProcessedContent` | paste/views.py:171-172 | `lexer_name` becomes `get_lexer(request, ['wrap'])` and the result is `Process` of it |
| `Views.SnippetView.Get` | paste/views.py:199-205 | the response equals `Respond`; `content`/`lexer_name` hold what the page shows and are untouched when loading fails; a plain view leaves `a` and `b`, a diff view sets them to the loaded snippets |
| `Views.ForkPrefill` | paste/views.py:78-88 | no `fork`: no prefill; `fork` naming a visible snippet: its content; otherwise 404 naming the slug |
| `Views.ForkOfPostedSnippet` | paste/views.py:78-88 | forking a freshly posted, unexpired snippet prefills exactly the posted text |
| `Views.SnippetForm.OfferLexer` | paste/views.py:90-102 | for a non-empty name the initial lexer is the name and the choices become `WithLexer` of the old ones; otherwise nothing changes |
| `Views.GetForm` | paste/views.py:75-104 | 404 exactly when the fork slug is not visible; otherwise a fresh form with the fork prefill and the lexer from `get_lexer(request, ['fork'])` offered |
| `Views.DeleteSnippet` | paste/views.py:64-69 | the new store and the answer are `DeleteOutcome` of the old store |
| `Views.FormValid` | paste/views.py:106-112 | the snippet is saved with the logged-in user as author and the redirect carries the lexer |
| `Views.IndexPost` | paste/views.py:119-136 | the new store and the answer are `PostOutcome` of the old store |

## Left out

- Pygments highlighting and guessing, Markdown, docutils and `HtmlFormatter` are oracles; their output is not modelled, only which of them produced the page.
- `difflib.unified_diff` is an oracle function of the two slugs (its file names) and the two texts, and the `textwrap` reflow an oracle function of the text; only the "same content" short-circuit is modelled.
- `str(snippet)`, slug generation and the default expiry belong to `paste/models.py`, which is not part of this model: `str` is an oracle, the slug is a fresh parameter, the expiry a parameter.
- `SyntaxView` (paste/views.py:49-58) lists `get_all_lexers()`, which is library data.
- `Rendering.Process`: the Markdown `convert` and docutils `publish_parts` calls (paste/views.py:175, 178) sit outside any `try`, so an exception there (docutils raises `SystemMessage` on a severe reST error) leaves the view as a server error; the model assumes both calls return, and only `highlight`'s failure, which the source catches, is an outcome.
- `Text.Lower`: lower-cases ASCII letters only; Python's `unicode.lower()` also maps non-ASCII letters.
- The time of a request is one `now`; the source reads the clock separately for each lookup.
- Query-string keys form a dictionary, so `get_lexer` and the views require them distinct; the order of `keys()` is a given of the request, since Python 2 dictionaries have no defined order. A key given several times is one parameter with the value `GET[key]` returns.
- The Django ORM, forms (`SnippetForm` and its validation), CSRF exemption, `Site`, templates, response objects and URL routing (`pasteapp/urls.py`) are framework plumbing; URL captures are a map, the page is a `Response` value, and the `a`/`b` context entries of the diff page are the view's `a` and `b` fields.
- The creation timestamp of a snippet is not used by any handler and is not modelled.
