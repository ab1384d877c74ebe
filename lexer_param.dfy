/**
 * `get_lexer` (paste/views.py:36-47): the lexer a request asks for is the
 * first query-string key that is not in an exclude list, lower-cased.
 */
module LexerParam {
  import opened Wrappers
  import Text
  import Http

  /** The index of the first occurrence of `x`. */
  function FirstIndex(xs: seq<string>, x: string): (i: nat)
    requires x in xs
    ensures i < |xs| && xs[i] == x && x !in xs[..i]
  {
    if xs[0] == x then 0
    else
      var j := FirstIndex(xs[1..], x);
      assert xs[..j + 1] == [xs[0]] + xs[1..][..j];
      j + 1
  }

  /** `list.remove(x)`: the list without the first occurrence of `x`, the rest in order. */
  function RemoveFirst(xs: seq<string>, x: string): (r: seq<string>)
    requires x in xs
    ensures r == xs[..FirstIndex(xs, x)] + xs[FirstIndex(xs, x) + 1..]
  {
    if xs[0] == x then
      xs[1..]
    else
      var j := FirstIndex(xs[1..], x);
      assert xs[..j + 1] == [xs[0]] + xs[1..][..j];
      assert xs[j + 2..] == xs[1..][j + 1..];
      [xs[0]] + RemoveFirst(xs[1..], x)
  }

  /** The keys not named in `exclude`, in their order. */
  function Kept(keys: seq<string>, exclude: seq<string>): (r: seq<string>)
    ensures forall k :: k in r <==> k in keys && k !in exclude
  {
    if keys == [] then []
    else if keys[0] in exclude then Kept(keys[1..], exclude)
    else [keys[0]] + Kept(keys[1..], exclude)
  }

  /** Index `i` holds the first key that `exclude` does not name. */
  predicate FirstUnexcluded(keys: seq<string>, exclude: seq<string>, i: int)
  {
    && 0 <= i < |keys|
    && keys[i] !in exclude
    && forall j :: 0 <= j < i ==> keys[j] in exclude
  }

  /** The first key, in order, that `exclude` does not name. */
  function FirstKept(keys: seq<string>, exclude: seq<string>): Option<string>
  {
    if keys == [] then None
    else if keys[0] in exclude then FirstKept(keys[1..], exclude)
    else Some(keys[0])
  }

  /** What `get_lexer` returns: that key lower-cased, or None. */
  function Selected(keys: seq<string>, exclude: seq<string>): Option<string>
  {
    match FirstKept(keys, exclude)
    case Some(k) => Some(Text.Lower(k))
    case None => None
  }

  /** There is no key to select exactly when every key is excluded (so also when there are none). */
  lemma {:induction false} FirstKeptNone(keys: seq<string>, exclude: seq<string>)
    ensures FirstKept(keys, exclude).None? <==> forall i :: 0 <= i < |keys| ==> keys[i] in exclude
  {
    if keys != [] {
      FirstKeptNone(keys[1..], exclude);
      assert forall i :: 1 <= i < |keys| ==> keys[i] == keys[1..][i - 1];
    }
  }

  /** The selected key is the one at the first index whose key is not excluded. */
  lemma {:induction false} FirstKeptIsFirst(keys: seq<string>, exclude: seq<string>, k: string)
    ensures FirstKept(keys, exclude) == Some(k) <==>
      exists i :: FirstUnexcluded(keys, exclude, i) && keys[i] == k
  {
    if keys != [] {
      var tail := keys[1..];
      FirstKeptIsFirst(tail, exclude, k);
      if FirstKept(keys, exclude) == Some(k) && keys[0] in exclude {
        var i :| FirstUnexcluded(tail, exclude, i) && tail[i] == k;
        assert keys[i + 1] == k;
        forall j | 0 <= j < i + 1 ensures keys[j] in exclude {
          if j > 0 { assert keys[j] == tail[j - 1]; }
        }
        assert FirstUnexcluded(keys, exclude, i + 1);
      }
      if i :| FirstUnexcluded(keys, exclude, i) && keys[i] == k {
        if i > 0 {
          assert keys[0] in exclude;
          forall j | 0 <= j < i - 1 ensures tail[j] in exclude {
            assert tail[j] == keys[j + 1];
          }
          assert FirstUnexcluded(tail, exclude, i - 1) && tail[i - 1] == k;
        }
      }
    }
  }

  /** `get_lexer`'s decision, stated on the query directly. */
  lemma SelectedSpec(keys: seq<string>, exclude: seq<string>)
    ensures Selected(keys, exclude).None? <==> forall i :: 0 <= i < |keys| ==> keys[i] in exclude
    ensures forall i :: FirstUnexcluded(keys, exclude, i) ==>
      Selected(keys, exclude) == Some(Text.Lower(keys[i]))
  {
    FirstKeptNone(keys, exclude);
    forall i | FirstUnexcluded(keys, exclude, i)
      ensures Selected(keys, exclude) == Some(Text.Lower(keys[i]))
    {
      FirstKeptIsFirst(keys, exclude, keys[i]);
    }
  }

  lemma {:induction false} KeptFirst(keys: seq<string>, exclude: seq<string>)
    ensures |Kept(keys, exclude)| > 0 <==> FirstKept(keys, exclude).Some?
    ensures |Kept(keys, exclude)| > 0 ==> Kept(keys, exclude)[0] == FirstKept(keys, exclude).value
  {
    if keys != [] {
      KeptFirst(keys[1..], exclude);
    }
  }

  lemma {:induction false} KeptNothing(keys: seq<string>)
    ensures Kept(keys, []) == keys
  {
    if keys != [] {
      KeptNothing(keys[1..]);
    }
  }

  lemma {:induction false} KeptAbsent(keys: seq<string>, exclude: seq<string>, x: string)
    requires x !in keys
    ensures Kept(keys, exclude + [x]) == Kept(keys, exclude)
  {
    if keys != [] {
      KeptAbsent(keys[1..], exclude, x);
    }
  }

  /** One pass of the loop: removing `x` once removes it, since keys are distinct. */
  lemma {:induction false} KeptStep(keys: seq<string>, exclude: seq<string>, x: string)
    requires Http.Distinct(keys)
    ensures x in Kept(keys, exclude) ==> RemoveFirst(Kept(keys, exclude), x) == Kept(keys, exclude + [x])
    ensures x !in Kept(keys, exclude) ==> Kept(keys, exclude) == Kept(keys, exclude + [x])
  {
    if keys != [] {
      var tail := keys[1..];
      assert Http.Distinct(tail) by {
        forall i, j | 0 <= i < j < |tail| ensures tail[i] != tail[j] {
          assert tail[i] == keys[i + 1] && tail[j] == keys[j + 1];
        }
      }
      KeptStep(tail, exclude, x);
      if keys[0] !in exclude && keys[0] == x {
        assert x !in tail by {
          forall i | 0 <= i < |tail| ensures tail[i] != x {
            assert tail[i] == keys[i + 1];
          }
        }
        KeptAbsent(tail, exclude, x);
      }
    }
  }

  /** The loop step of `GetLexer`, stated on prefixes of the exclude list. */
  lemma KeptPrefixStep(keys: seq<string>, exclude: seq<string>, i: nat)
    requires Http.Distinct(keys) && i < |exclude|
    ensures exclude[i] in Kept(keys, exclude[..i]) ==>
      RemoveFirst(Kept(keys, exclude[..i]), exclude[i]) == Kept(keys, exclude[..i + 1])
    ensures exclude[i] !in Kept(keys, exclude[..i]) ==> Kept(keys, exclude[..i]) == Kept(keys, exclude[..i + 1])
  {
    var done, x := exclude[..i], exclude[i];
    assert exclude[..i + 1] == done + [x];
    KeptStep(keys, done, x);
  }

  /** Taking the head of the kept keys is `Selected`, and it is None exactly when every query key is excluded. */
  lemma SelectedIsHeadOfKept(query: Http.Query, exclude: seq<string>)
    ensures var kept := Kept(Http.Keys(query), exclude);
      Selected(Http.Keys(query), exclude) == if |kept| > 0 then Some(Text.Lower(kept[0])) else None
    ensures Selected(Http.Keys(query), exclude).None? <==> forall i :: 0 <= i < |query| ==> query[i].key in exclude
  {
    KeptFirst(Http.Keys(query), exclude);
    SelectedSpec(Http.Keys(query), exclude);
  }

  /** The `for x in exclude` loop of `get_lexer`: each excluded key present is removed from the list in place. */
  method DropExcluded(keys: seq<string>, exclude: seq<string>) returns (kept: seq<string>)
    requires Http.Distinct(keys)
    ensures kept == Kept(keys, exclude)
  {
    kept := keys;
    KeptNothing(keys);
    var i := 0;
    while i < |exclude|
      invariant 0 <= i <= |exclude|
      invariant kept == Kept(keys, exclude[..i])
    {
      var x := exclude[i];
      KeptPrefixStep(keys, exclude, i);
      if x in kept {
        kept := RemoveFirst(kept, x);
      }
      i := i + 1;
    }
    assert exclude[..i] == exclude;
  }

  /** `get_lexer(request, exclude)`: drops each excluded key from the key list, then takes the first. */
  method GetLexer(query: Http.Query, exclude: seq<string>) returns (name: Option<string>)
    requires Http.WellFormed(query)
    ensures name == Selected(Http.Keys(query), exclude)
    ensures name.None? <==> forall i :: 0 <= i < |query| ==> query[i].key in exclude
  {
    var keys := Http.Keys(query);
    if |exclude| > 0 {
      keys := DropExcluded(keys, exclude);
    } else {
      KeptNothing(keys);
    }
    SelectedIsHeadOfKept(query, exclude);
    if |keys| > 0 {
      name := Some(Text.Lower(keys[0]));
    } else {
      name := None;
    }
  }
}
