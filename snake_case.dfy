/** `convert_to_snake` and `keys_to_snake_case`: two left-to-right regular
    expression substitutions that insert `_` at word boundaries, then ASCII
    lower-casing; and the key renaming of a dictionary built from them. */
module SnakeCase {
  import opened Text

  /** The length of the run of lower-case letters that `s` starts with. */
  function LowerRun(s: string): (n: nat)
    ensures n <= |s|
    ensures forall i :: 0 <= i < n ==> IsLower(s[i])
    ensures n < |s| ==> !IsLower(s[n])
  {
    if s != [] && IsLower(s[0]) then 1 + LowerRun(s[1..]) else 0
  }

  /** `re.sub('([a-zA-Z])([A-Z][a-z]+)', r'\1_\2', s)`: a letter followed by
      a capitalised word gets `_` in between; the scan resumes after the word. */
  function SplitWords(s: string): string
    decreases |s|
  {
    if |s| >= 3 && IsAlpha(s[0]) && IsUpper(s[1]) && IsLower(s[2]) then
      var n := 2 + LowerRun(s[2..]);
      [s[0], '_'] + s[1..n] + SplitWords(s[n..])
    else if s == [] then []
    else [s[0]] + SplitWords(s[1..])
  }

  /** `re.sub('([a-z0-9])([A-Z])', r'\1_\2', s)`: a lower-case letter or digit
      followed by a capital gets `_` in between; the scan resumes after the capital. */
  function SplitCapitals(s: string): string
    decreases |s|
  {
    if |s| >= 2 && (IsLower(s[0]) || IsDigit(s[0])) && IsUpper(s[1]) then
      [s[0], '_', s[1]] + SplitCapitals(s[2..])
    else if s == [] then []
    else [s[0]] + SplitCapitals(s[1..])
  }

  function LowerChar(c: char): (r: char)
    ensures !IsUpper(r)
    ensures IsUpper(c) ==> IsLower(r)
    ensures !IsUpper(c) ==> r == c
  {
    if IsUpper(c) then (c as int + 32) as char else c
  }

  /** `str.lower()` on ASCII letters. */
  function Lower(s: string): (r: string)
    ensures |r| == |s|
    ensures forall i :: 0 <= i < |s| ==> r[i] == LowerChar(s[i])
  {
    seq(|s|, i requires 0 <= i < |s| => LowerChar(s[i]))
  }

  predicate NoUpper(s: string) {
    forall i :: 0 <= i < |s| ==> !IsUpper(s[i])
  }

  /** `convert_to_snake`. */
  function ConvertToSnake(name: string): (r: string)
    ensures NoUpper(r)
  {
    Lower(SplitCapitals(SplitWords(name)))
  }

  // ---------------------------------------------------------------------------
  // Strings without capitals are left alone

  lemma {:induction false} SplitWordsNoUpper(s: string)
    requires NoUpper(s)
    ensures SplitWords(s) == s
    decreases |s|
  {
    if s != [] {
      assert NoUpper(s[1..]);
      SplitWordsNoUpper(s[1..]);
    }
  }

  lemma {:induction false} SplitCapitalsNoUpper(s: string)
    requires NoUpper(s)
    ensures SplitCapitals(s) == s
    decreases |s|
  {
    if s != [] {
      assert NoUpper(s[1..]);
      SplitCapitalsNoUpper(s[1..]);
    }
  }

  lemma LowerNoUpper(s: string)
    requires NoUpper(s)
    ensures Lower(s) == s
  {
  }

  /** A name with no capitals is already in snake case and comes back unchanged. */
  lemma ConvertNoUpper(name: string)
    requires NoUpper(name)
    ensures ConvertToSnake(name) == name
  {
    SplitWordsNoUpper(name);
    SplitCapitalsNoUpper(name);
    LowerNoUpper(name);
  }

  /** Converting twice is converting once. */
  lemma ConvertIdempotent(name: string)
    ensures ConvertToSnake(ConvertToSnake(name)) == ConvertToSnake(name)
  {
    ConvertNoUpper(ConvertToSnake(name));
  }

  // ---------------------------------------------------------------------------
  // Only underscores are inserted

  /** The text with its underscores taken out. */
  function Letters(s: string): (r: string)
    ensures |r| <= |s|
    ensures '_' !in r
  {
    if s == [] then []
    else (if s[0] == '_' then [] else [s[0]]) + Letters(s[1..])
  }

  lemma {:induction false} LettersAppend(a: string, b: string)
    ensures Letters(a + b) == Letters(a) + Letters(b)
    decreases |a|
  {
    if a != [] {
      var first := if a[0] == '_' then [] else [a[0]];
      assert (a + b)[0] == a[0];
      assert (a + b)[1..] == a[1..] + b;
      LettersAppend(a[1..], b);
      calc {
        Letters(a + b);
        first + Letters(a[1..] + b);
        first + (Letters(a[1..]) + Letters(b));
        (first + Letters(a[1..])) + Letters(b);
        Letters(a) + Letters(b);
      }
    } else {
      assert a + b == b;
    }
  }

  /** Letters of three pieces. */
  lemma LettersThree(a: string, b: string, c: string)
    ensures Letters(a + b + c) == Letters(a) + Letters(b) + Letters(c)
  {
    LettersAppend(a + b, c);
    LettersAppend(a, b);
  }

  lemma LettersUnderscore(c: char)
    ensures Letters([c, '_']) == Letters([c])
  {
    assert [c, '_'][1..] == ['_'];
  }

  /** Prepending one character that both sides keep. */
  lemma LettersCons(c: char, t: string, u: string)
    requires Letters(t) == Letters(u)
    ensures Letters([c] + t) == Letters([c] + u)
  {
    LettersAppend([c], t);
    LettersAppend([c], u);
  }

  lemma Pieces(s: string, n: nat)
    requires 1 <= n <= |s|
    ensures [s[0]] + s[1..n] + s[n..] == s
  {
  }

  /** The step of `SplitWordsLetters` that inserts `_` before a capitalised word. */
  lemma SplitWordsLettersWord(s: string, n: nat)
    requires |s| >= 3 && IsAlpha(s[0]) && IsUpper(s[1]) && IsLower(s[2])
    requires n == 2 + LowerRun(s[2..])
    requires Letters(SplitWords(s[n..])) == Letters(s[n..])
    ensures Letters(SplitWords(s)) == Letters(s)
  {
    var word, rest := s[1..n], s[n..];
    calc {
      Letters(SplitWords(s));
      { assert SplitWords(s) == [s[0], '_'] + word + SplitWords(rest); }
      Letters([s[0], '_'] + word + SplitWords(rest));
      { LettersThree([s[0], '_'], word, SplitWords(rest)); }
      Letters([s[0], '_']) + Letters(word) + Letters(SplitWords(rest));
      { LettersUnderscore(s[0]); }
      Letters([s[0]]) + Letters(word) + Letters(rest);
      { LettersThree([s[0]], word, rest); Pieces(s, n); }
      Letters(s);
    }
  }

  lemma {:induction false} SplitWordsLetters(s: string)
    ensures Letters(SplitWords(s)) == Letters(s)
    decreases |s|
  {
    if |s| >= 3 && IsAlpha(s[0]) && IsUpper(s[1]) && IsLower(s[2]) {
      var n := 2 + LowerRun(s[2..]);
      SplitWordsLetters(s[n..]);
      SplitWordsLettersWord(s, n);
    } else if s != [] {
      SplitWordsLetters(s[1..]);
      assert SplitWords(s) == [s[0]] + SplitWords(s[1..]);
      LettersCons(s[0], SplitWords(s[1..]), s[1..]);
      assert s == [s[0]] + s[1..];
    }
  }

  /** The step of `SplitCapitalsLetters` that inserts `_` before a capital. */
  lemma SplitCapitalsLettersPair(s: string)
    requires |s| >= 2 && (IsLower(s[0]) || IsDigit(s[0])) && IsUpper(s[1])
    requires Letters(SplitCapitals(s[2..])) == Letters(s[2..])
    ensures Letters(SplitCapitals(s)) == Letters(s)
  {
    var rest := s[2..];
    calc {
      Letters(SplitCapitals(s));
      { assert SplitCapitals(s) == [s[0], '_', s[1]] + SplitCapitals(rest); }
      Letters([s[0], '_', s[1]] + SplitCapitals(rest));
      { LettersAppend([s[0], '_', s[1]], SplitCapitals(rest)); }
      Letters([s[0], '_', s[1]]) + Letters(SplitCapitals(rest));
      { LettersInfix(s[0], s[1]); }
      Letters([s[0], s[1]]) + Letters(rest);
      { LettersAppend([s[0], s[1]], rest); assert [s[0], s[1]] + rest == s; }
      Letters(s);
    }
  }

  lemma LettersInfix(a: char, b: char)
    ensures Letters([a, '_', b]) == Letters([a, b])
  {
    assert [a, '_', b][1..] == ['_', b];
    assert [a, '_', b][1..][1..] == [b];
    assert [a, b][1..] == [b];
  }

  lemma {:induction false} SplitCapitalsLetters(s: string)
    ensures Letters(SplitCapitals(s)) == Letters(s)
    decreases |s|
  {
    if |s| >= 2 && (IsLower(s[0]) || IsDigit(s[0])) && IsUpper(s[1]) {
      SplitCapitalsLetters(s[2..]);
      SplitCapitalsLettersPair(s);
    } else if s != [] {
      SplitCapitalsLetters(s[1..]);
      assert SplitCapitals(s) == [s[0]] + SplitCapitals(s[1..]);
      LettersCons(s[0], SplitCapitals(s[1..]), s[1..]);
      assert s == [s[0]] + s[1..];
    }
  }

  lemma LowerAppend(a: string, b: string)
    ensures Lower(a + b) == Lower(a) + Lower(b)
  {
  }

  lemma LettersLowerChar(c: char)
    ensures Letters([LowerChar(c)]) == Lower(Letters([c]))
  {
    assert [LowerChar(c)][1..] == [] && [c][1..] == [];
  }

  lemma {:induction false} LowerLetters(s: string)
    ensures Letters(Lower(s)) == Lower(Letters(s))
    decreases |s|
  {
    if s != [] {
      var c, t := s[0], s[1..];
      calc {
        Letters(Lower(s));
        { assert Lower(s) == [LowerChar(c)] + Lower(t); }
        Letters([LowerChar(c)] + Lower(t));
        { LettersAppend([LowerChar(c)], Lower(t)); }
        Letters([LowerChar(c)]) + Letters(Lower(t));
        { LowerLetters(t); LettersLowerChar(c); }
        Lower(Letters([c])) + Lower(Letters(t));
        { LowerAppend(Letters([c]), Letters(t)); }
        Lower(Letters([c]) + Letters(t));
        { LettersAppend([c], t); assert [c] + t == s; }
        Lower(Letters(s));
      }
    }
  }

  /** `convert_to_snake` only inserts underscores and lower-cases: with the
      underscores removed, the result is the lower-cased name. */
  lemma ConvertLetters(name: string)
    ensures Letters(ConvertToSnake(name)) == Lower(Letters(name))
  {
    SplitWordsLetters(name);
    SplitCapitalsLetters(SplitWords(name));
    LowerLetters(SplitCapitals(SplitWords(name)));
  }

  lemma CamelExampleWord()
    ensures SplitWords("yId") == "y_Id"
  {
    assert LowerRun("d") == 1;
    assert SplitWords("") == "";
  }

  lemma CamelExampleWords()
    ensures SplitWords("keyId") == "key_Id"
  {
    var w := "keyId";
    assert w[1..] == "eyId" && w[1..][1..] == "yId";
    assert SplitWords(w[1..]) == "ey_Id" by {
      CamelExampleWord();
    }
  }

  lemma CamelExampleCapitals()
    ensures SplitCapitals("key_Id") == "key_Id"
  {
    assert SplitCapitals("Id") == "Id";
    assert SplitCapitals("_Id") == "_Id";
    assert SplitCapitals("y_Id") == "y_Id";
    assert SplitCapitals("ey_Id") == "ey_Id";
  }

  /** A camel-case key, as in `keyId`, becomes `key_id`. */
  lemma CamelExample()
    ensures ConvertToSnake("keyId") == "key_id"
  {
    CamelExampleWords();
    CamelExampleCapitals();
  }

  // ---------------------------------------------------------------------------
  // keys_to_snake_case

  /** The converted keys of a dictionary's items. */
  function ConvertedKeys<V>(items: seq<(string, V)>): set<string> {
    set i | 0 <= i < |items| :: ConvertToSnake(items[i].0)
  }

  lemma ConvertedKeysLast<V>(items: seq<(string, V)>)
    requires items != []
    ensures ConvertedKeys(items)
         == ConvertedKeys(items[..|items| - 1]) + {ConvertToSnake(items[|items| - 1].0)}
  {
    var front := items[..|items| - 1];
    forall k | k in ConvertedKeys(items)
      ensures k in ConvertedKeys(front) + {ConvertToSnake(items[|items| - 1].0)}
    {
      var i :| 0 <= i < |items| && ConvertToSnake(items[i].0) == k;
      if i < |items| - 1 {
        assert front[i] == items[i];
      }
    }
    forall k | k in ConvertedKeys(front) ensures k in ConvertedKeys(items) {
      var i :| 0 <= i < |front| && ConvertToSnake(front[i].0) == k;
      assert items[i] == front[i];
    }
  }

  /** `keys_to_snake_case`: a new dictionary built from the items in order, so
      of two keys that convert alike the later one's value is kept. */
  function KeysToSnake<V>(items: seq<(string, V)>): (r: map<string, V>)
    ensures r.Keys == ConvertedKeys(items)
  {
    if items == [] then map[]
    else
      var last := items[|items| - 1];
      ConvertedKeysLast(items);
      KeysToSnake(items[..|items| - 1])[ConvertToSnake(last.0) := last.1]
  }

  /** Every value is carried over: each key maps to the value of the last item
      whose key converts to it. */
  lemma {:induction false} KeysToSnakeValue<V>(items: seq<(string, V)>, i: nat)
    requires i < |items|
    requires forall j :: i < j < |items| ==> ConvertToSnake(items[j].0) != ConvertToSnake(items[i].0)
    ensures ConvertToSnake(items[i].0) in KeysToSnake(items)
    ensures KeysToSnake(items)[ConvertToSnake(items[i].0)] == items[i].1
    decreases |items|
  {
    if i < |items| - 1 {
      var front := items[..|items| - 1];
      assert front[i] == items[i];
      KeysToSnakeValue(front, i);
    }
  }

  /** Keys already in snake case are kept as they are. */
  lemma KeysToSnakeKeepsSnake<V>(items: seq<(string, V)>)
    requires forall i :: 0 <= i < |items| ==> NoUpper(items[i].0)
    ensures KeysToSnake(items).Keys == set i | 0 <= i < |items| :: items[i].0
  {
    forall i | 0 <= i < |items| ensures ConvertToSnake(items[i].0) == items[i].0 {
      ConvertNoUpper(items[i].0);
    }
  }
}
