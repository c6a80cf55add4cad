/** Regular-expression escaping of a matched word, and the fragment of the JavaScript
    regular-expression grammar that an escaped word falls into: a capturing group whose
    body is ordinary characters and identity escapes of syntax characters. */
module Pattern {
  import opened Text
  import opened Wrappers

  /** The characters the escape prefixes with a backslash: . * + ? ^ $ { } ( ) | [ ] \
      (exactly the SyntaxCharacter set of ECMAScript regular expressions). */
  predicate IsSyntaxChar(c: char) {
    c == '.' || c == '*' || c == '+' || c == '?' || c == '^' || c == '$' ||
    c == '{' || c == '}' || c == '(' || c == ')' || c == '|' || c == '[' ||
    c == ']' || c == '\\'
  }

  /** The number of syntax characters in a word. */
  function SyntaxCount(word: String): nat {
    if word == [] then 0 else (if IsSyntaxChar(word[0]) then 1 else 0) + SyntaxCount(word[1..])
  }

  /** `word.replace(/[.*+?^${}()|[\]\\]/g, '\\$&')`: one backslash is added per syntax
      character and nothing else is added or dropped. */
  function Escape(word: String): (r: String)
    ensures |r| == |word| + SyntaxCount(word)
  {
    if word == [] then []
    else (if IsSyntaxChar(word[0]) then ['\\', word[0]] else [word[0]]) + Escape(word[1..])
  }

  /** The regex source built from a word: `(${escapedWord})`. */
  function Source(word: String): (r: String)
    ensures |r| >= |word| + 2 && r[0] == '(' && r[|r| - 1] == ')'
  {
    "(" + Escape(word) + ")"
  }

  /** The literal text a pattern body denotes when it is made only of ordinary characters
      (each matches itself) and backslash escapes of syntax characters (each matches the
      escaped character); any other body (an unescaped syntax character, or an escape such
      as `\d` or `\b` with a meaning of its own) is outside this fragment. */
  function Literal(body: String): Option<String>
    decreases |body|
  {
    if body == [] then Some([])
    else if body[0] == '\\' then
      if |body| >= 2 && IsSyntaxChar(body[1]) then
        match Literal(body[2..])
        case Some(rest) => Some([body[1]] + rest)
        case None => None
      else None
    else if IsSyntaxChar(body[0]) then None
    else
      match Literal(body[1..])
      case Some(rest) => Some([body[0]] + rest)
      case None => None
  }

  /** The text matched by the single capturing group of a source `(body)` whose body is
      a literal. */
  function GroupLiteral(source: String): Option<String> {
    if |source| >= 2 && source[0] == '(' && source[|source| - 1] == ')' then
      Literal(source[1..|source| - 1])
    else None
  }

  /** Escaping a word yields a pattern body that denotes exactly that word. */
  lemma {:induction false} EscapeIsLiteral(word: String)
    ensures Literal(Escape(word)) == Some(word)
  {
    if word != [] {
      EscapeIsLiteral(word[1..]);
      var e := Escape(word);
      if IsSyntaxChar(word[0]) {
        assert e[2..] == Escape(word[1..]);
      } else {
        assert e[1..] == Escape(word[1..]);
      }
      assert word == [word[0]] + word[1..];
    }
  }

  /** Conversely, the escaped word is the only literal body denoting that word: the
      escape loses nothing and adds nothing beyond the backslashes. */
  lemma {:induction false} LiteralIsEscape(body: String, word: String)
    requires Literal(body) == Some(word)
    ensures body == Escape(word)
    decreases |body|
  {
    if body != [] {
      if body[0] == '\\' {
        var rest := Literal(body[2..]).value;
        LiteralIsEscape(body[2..], rest);
        assert word == [body[1]] + rest;
        assert word[1..] == rest;
        assert body == ['\\', body[1]] + body[2..];
      } else {
        var rest := Literal(body[1..]).value;
        LiteralIsEscape(body[1..], rest);
        assert word == [body[0]] + rest;
        assert word[1..] == rest;
        assert body == [body[0]] + body[1..];
      }
    }
  }

  /** Unescaping undoes the escape: the regex built from a word captures exactly that
      word, with no character read as an operator. */
  lemma SourceCapturesWord(word: String)
    ensures GroupLiteral(Source(word)) == Some(word)
  {
    var src := Source(word);
    assert src[1..|src| - 1] == Escape(word);
    EscapeIsLiteral(word);
  }

  /** A word without syntax characters is its own escape. */
  lemma {:induction false} EscapeKeepsPlainWord(word: String)
    requires forall i :: 0 <= i < |word| ==> !IsSyntaxChar(word[i])
    ensures Escape(word) == word
  {
    if word != [] {
      EscapeKeepsPlainWord(word[1..]);
      assert word == [word[0]] + word[1..];
    }
  }
}
