/** Character and string helpers that stand for the JavaScript string built-ins the
    component relies on: String.prototype.trim, toLowerCase, endsWith, and the
    case-insensitive character comparison of a regular expression with the `i` flag. */
module Text {

  type String = seq<char>

  /** The characters String.prototype.trim removes: WhiteSpace (tab, vertical tab, form
      feed, space, no-break space, byte order mark and the Zs space separators) and
      LineTerminator (line feed, carriage return, line and paragraph separators). */
  predicate IsSpace(c: char) {
    c == '\t' || c == '\n' || c == '\U{B}' || c == '\U{C}' || c == '\r' || c == ' ' ||
    c == '\U{A0}' || c == '\U{1680}' || ('\U{2000}' <= c <= '\U{200A}') ||
    c == '\U{2028}' || c == '\U{2029}' || c == '\U{202F}' || c == '\U{205F}' ||
    c == '\U{3000}' || c == '\U{FEFF}'
  }

  predicate AllSpace(s: String) {
    forall i :: 0 <= i < |s| ==> IsSpace(s[i])
  }

  /** Drops the leading white space: the result is the suffix of `s` that starts at its
      first non-space character. */
  function TrimStart(s: String): (r: String)
    ensures |r| <= |s| && r == s[|s| - |r|..]
    ensures forall i :: 0 <= i < |s| - |r| ==> IsSpace(s[i])
    ensures r == [] || !IsSpace(r[0])
  {
    if s != [] && IsSpace(s[0]) then TrimStart(s[1..]) else s
  }

  /** Drops the trailing white space: the result is the prefix of `s` that ends at its
      last non-space character. */
  function TrimEnd(s: String): (r: String)
    ensures |r| <= |s| && r == s[..|r|]
    ensures forall i :: |r| <= i < |s| ==> IsSpace(s[i])
    ensures r == [] || !IsSpace(r[|r| - 1])
  {
    if s != [] && IsSpace(s[|s| - 1]) then TrimEnd(s[..|s| - 1]) else s
  }

  /** String.prototype.trim: never longer than its input, and neither starts nor ends
      with white space. */
  function Trim(s: String): (r: String)
    ensures |r| <= |s|
    ensures r == [] || (!IsSpace(r[0]) && !IsSpace(r[|r| - 1]))
  {
    var t := TrimStart(s);
    var r := TrimEnd(t);
    assert r != [] ==> r[0] == t[0];
    r
  }

  /** Trim removes exactly the white space around the first and last non-space
      characters: any cut of `s` into white space, a core that neither starts nor ends
      with white space, and white space, has that core as its trim. */
  lemma {:induction false} TrimIsCore(s: String, i: nat, j: nat)
    requires i <= j <= |s|
    requires forall k :: 0 <= k < i ==> IsSpace(s[k])
    requires forall k :: j <= k < |s| ==> IsSpace(s[k])
    requires i < j ==> !IsSpace(s[i]) && !IsSpace(s[j - 1])
    ensures Trim(s) == s[i..j]
  {
    if i < j {
      TrimStartAt(s, i);
      TrimEndAt(s, i, j);
    } else {
      TrimOfAllSpace(s);
    }
  }

  /** The leading white space ends at the first non-space character. */
  lemma {:induction false} TrimStartAt(s: String, i: nat)
    requires i < |s| && !IsSpace(s[i])
    requires forall k :: 0 <= k < i ==> IsSpace(s[k])
    ensures TrimStart(s) == s[i..]
    decreases i
  {
    if i > 0 {
      assert IsSpace(s[0]);
      assert s[1..][i - 1] == s[i];
      TrimStartAt(s[1..], i - 1);
      assert s[1..][i - 1..] == s[i..];
    }
  }

  /** The trailing white space of `s[i..]` starts after its last non-space character. */
  lemma {:induction false} TrimEndAt(s: String, i: nat, j: nat)
    requires i < j <= |s| && !IsSpace(s[j - 1])
    requires forall k :: j <= k < |s| ==> IsSpace(s[k])
    ensures TrimEnd(s[i..]) == s[i..j]
    decreases |s| - j
  {
    if j < |s| {
      var u := s[..|s| - 1];
      assert IsSpace(s[|s| - 1]);
      assert u[j - 1] == s[j - 1];
      TrimEndAt(u, i, j);
      assert s[i..][..|s| - i - 1] == u[i..];
      assert u[i..j] == s[i..j];
    } else {
      assert s[i..][|s| - i - 1] == s[j - 1];
      assert s[i..j] == s[i..];
    }
  }

  /** A string made only of white space trims to the empty string, and only such a
      string does: this is the emptiness test `if (description.trim())` relies on. */
  lemma {:induction false} TrimEmptyIffAllSpace(s: String)
    ensures Trim(s) == [] <==> AllSpace(s)
  {
    if AllSpace(s) {
      TrimOfAllSpace(s);
    } else {
      var k :| 0 <= k < |s| && !IsSpace(s[k]);
    }
  }

  lemma TrimOfAllSpace(s: String)
    requires AllSpace(s)
    ensures Trim(s) == []
  {
  }

  /** ASCII case folding, the part of toLowerCase this model covers. */
  function Lower(c: char): char {
    if 'A' <= c <= 'Z' then (c as int - 'A' as int + 'a' as int) as char else c
  }

  /** String.prototype.toLowerCase, on ASCII letters. */
  function ToLower(s: String): String {
    seq(|s|, i requires 0 <= i < |s| => Lower(s[i]))
  }

  /** Lower-casing works character by character, so it distributes over concatenation. */
  lemma ToLowerAppend(a: String, b: String)
    ensures ToLower(a + b) == ToLower(a) + ToLower(b)
  {
  }

  /** Lower-casing twice is lower-casing once. */
  lemma LowerIdempotent(s: String)
    ensures ToLower(ToLower(s)) == ToLower(s)
  {
  }

  /** Two characters a case-insensitive regular expression treats as equal. */
  predicate SameIgnoringCase(a: char, b: char) {
    Lower(a) == Lower(b)
  }

  function EndsWith(s: String, suffix: String): bool {
    |suffix| <= |s| && s[|s| - |suffix|..] == suffix
  }
}
