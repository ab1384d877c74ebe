/**
 * The lexer field of the paste form (paste/views.py:90-102): a request that
 * names a lexer preselects it, and a lexer Pygments knows but the choice list
 * lacks is put at the head of the list.
 */
module LexerChoices {
  import opened Wrappers

  /** One `(key, label)` pair of the field's `choices`. */
  datatype Choice = Choice(key: string, display: string)

  predicate HasKey(choices: seq<Choice>, name: string)
  {
    exists i :: 0 <= i < |choices| && choices[i].key == name
  }

  /** The loop `for l in choices: if lexer_name == l[0]: return form`. */
  method FindChoice(choices: seq<Choice>, name: string) returns (found: bool)
    ensures found <==> HasKey(choices, name)
  {
    var i := 0;
    while i < |choices|
      invariant 0 <= i <= |choices|
      invariant forall j :: 0 <= j < i ==> choices[j].key != name
    {
      if choices[i].key == name {
        return true;
      }
      i := i + 1;
    }
    return false;
  }

  /**
   * The choice list once `name` has been offered; `byName` is
   * `get_lexer_by_name(...).name`. Afterwards the name is a choice exactly
   * when it was one already or Pygments resolves it.
   */
  function WithLexer(choices: seq<Choice>, name: string, byName: string -> Option<string>): (r: seq<Choice>)
    ensures HasKey(r, name) <==> HasKey(choices, name) || byName(name).Some?
  {
    if HasKey(choices, name) then choices
    else match byName(name)
      case Some(display) =>
        var r := [Choice(name, display)] + choices;
        assert r[0].key == name;
        r
      case None => choices
  }

  /** Offering a name keeps every old choice, in order, and adds at most one, at the front. */
  lemma WithLexerShape(choices: seq<Choice>, name: string, byName: string -> Option<string>)
    ensures WithLexer(choices, name, byName) == choices ||
      (!HasKey(choices, name) && byName(name).Some? &&
       WithLexer(choices, name, byName) == [Choice(name, byName(name).value)] + choices)
  {
  }

  /** Offering the same name twice changes the list no more than offering it once. */
  lemma WithLexerIdempotent(choices: seq<Choice>, name: string, byName: string -> Option<string>)
    ensures WithLexer(WithLexer(choices, name, byName), name, byName) == WithLexer(choices, name, byName)
  {
  }

  /** An offer adds no second choice under a key already present: keys stay distinct. */
  lemma WithLexerKeepsKeysDistinct(choices: seq<Choice>, name: string, byName: string -> Option<string>)
    requires forall i, j :: 0 <= i < j < |choices| ==> choices[i].key != choices[j].key
    ensures var r := WithLexer(choices, name, byName);
      forall i, j :: 0 <= i < j < |r| ==> r[i].key != r[j].key
  {
  }
}
