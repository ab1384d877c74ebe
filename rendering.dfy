/**
 * Renderer selection in `SnippetView.get_processed_content`
 * (paste/views.py:171-197). The libraries the view calls are oracles: whether
 * Markdown and docutils are importable, which names Pygments resolves, what
 * `guess_lexer` makes of the content, and whether `highlight` succeeds.
 */
module Rendering {
  import opened Wrappers
  import Text

  /** The lexer object handed to `highlight`. */
  datatype Lexer =
    | Named(alias: string)     // get_lexer_by_name(alias)
    | Guessed(name: string)    // guess_lexer(content), identified by its name
    | PythonLexer              // PythonLexer(), the last resort

  /** Pygments as the view sees it. `byName` gives the display name of a lexer alias it knows. */
  datatype Pygments = Pygments(
    byName: string -> Option<string>,
    guess: string -> Option<string>,
    highlights: (string, Lexer) -> bool)

  /** Whether the optional imports at the top of the module succeeded. */
  datatype Libraries = Libraries(markdown: bool, docutils: bool)

  /** What the view puts in `processed_content`. */
  datatype Rendered =
    | MarkdownHtml(source: string)            // Markdown(...).convert, marked safe
    | RestructuredHtml(source: string)        // publish_parts(...)["fragment"], marked safe
    | Highlighted(source: string, lexer: Lexer) // highlight(...), marked safe
    | Escaped(text: string)                   // escape(content): escaped first, then marked safe

  predicate IsMarkdownName(name: Option<string>)
  {
    name == Some("markdown") || name == Some("md")
  }

  predicate IsGuessName(name: Option<string>)
  {
    name == Some("g") || name == Some("guess")
  }

  /** A name the view looks up by name: present, not empty, and not a request to guess. */
  predicate IsLookupName(name: Option<string>)
  {
    name.Some? && name.value != "" && !IsGuessName(name)
  }

  /** The lexer the first `try` block builds, or None where that block raises. */
  function Attempt(name: Option<string>, py: Pygments, content: string): Option<Lexer>
  {
    if IsGuessName(name) then
      (match py.guess(content) case Some(g) => Some(Guessed(g)) case None => None)
    else if IsLookupName(name) then
      (match py.byName(name.value) case Some(_) => Some(Named(name.value)) case None => None)
    else None
  }

  /** The `except` branch: guess again, and take PythonLexer if that raises too. */
  function Fallback(py: Pygments, content: string): Lexer
  {
    match py.guess(content)
    case Some(g) => Guessed(g)
    case None => PythonLexer
  }

  /** The one lexer the view lands on, whatever the name and the oracles say. */
  function ChooseLexer(name: Option<string>, py: Pygments, content: string): (l: Lexer)
    ensures l.Named? <==> IsLookupName(name) && py.byName(name.value).Some?
    ensures l.Named? ==> l.alias == name.value
    ensures l.Guessed? <==> !l.Named? && py.guess(content).Some?
    ensures l.Guessed? ==> py.guess(content) == Some(l.name)
    ensures l.PythonLexer? <==> !l.Named? && py.guess(content).None?
  {
    match Attempt(name, py, content)
    case Some(l) => l
    case None => Fallback(py, content)
  }

  /** `get_processed_content`, once `self.lexer_name` is known. */
  function Process(name: Option<string>, libs: Libraries, py: Pygments, content: string): (r: Rendered)
    ensures r.MarkdownHtml? <==> libs.markdown && IsMarkdownName(name)
    ensures r.RestructuredHtml? <==> libs.docutils && name == Some("rrst")
    ensures r.MarkdownHtml? || r.RestructuredHtml? || r.Highlighted? ==> r.source == content
    ensures r.Highlighted? <==>
      !r.MarkdownHtml? && !r.RestructuredHtml? && py.highlights(content, ChooseLexer(name, py, content))
    ensures r.Highlighted? ==> r.lexer == ChooseLexer(name, py, content)
    ensures r.Escaped? ==> r.text == Text.Escape(content)
  {
    if libs.markdown && IsMarkdownName(name) then MarkdownHtml(content)
    else if libs.docutils && name == Some("rrst") then RestructuredHtml(content)
    else
      var lexer := ChooseLexer(name, py, content);
      if py.highlights(content, lexer) then Highlighted(content, lexer)
      else Escaped(Text.Escape(content))
  }

  /**
   * Where highlighting fails, the content is escaped before it is marked
   * safe: the page gets no markup character from it, and nothing of it is lost.
   */
  lemma EscapedIsInert(name: Option<string>, libs: Libraries, py: Pygments, content: string)
    ensures Process(name, libs, py, content).Escaped? ==>
      forall c :: c in Process(name, libs, py, content).text ==> !Text.Markup(c)
    ensures Process(name, libs, py, content).Escaped? ==>
      Text.Unescape(Process(name, libs, py, content).text) == content
  {
    Text.EscapeHasNoMarkup(content);
    Text.UnescapeEscape(content);
  }

  /**
   * A missing library is as if its name were any other: 'md', 'markdown' and
   * 'rrst' then go to the Pygments lookup, exactly as a name the view does not
   * single out does.
   */
  lemma MissingLibraryFallsThrough(name: Option<string>, py: Pygments, content: string)
    ensures Process(name, Libraries(false, false), py, content) ==
      (var l := ChooseLexer(name, py, content);
       if py.highlights(content, l) then Highlighted(content, l) else Escaped(Text.Escape(content)))
  {
  }

  /** Library availability matters only for the three names that ask for them. */
  lemma LibrariesMatterOnlyForTheirNames(name: Option<string>, libs: Libraries, py: Pygments, content: string)
    requires !IsMarkdownName(name) && name != Some("rrst")
    ensures Process(name, libs, py, content) == Process(name, Libraries(false, false), py, content)
  {
  }
}
