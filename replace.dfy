/** `html.replace(new RegExp("(" + escapedWord + ")", "gi"), '<span ...>$1</span>')` on a
    pattern that is a literal: a case-insensitive, global, left-to-right, non-overlapping
    search for the word, each match wrapped in a coloured span that keeps the matched text
    in its original case.

    The search is modelled in two stages. Scan cuts the subject into pieces, each either
    one character left as it is or one matched stretch; Render turns the pieces back into
    a string, wrapping each matched stretch. The contract of the replacement is stated on
    the pieces: they spell the subject again (so removing the inserted spans gives back
    the input), every matched stretch equals the word up to case, and no character left
    as it is starts an occurrence (the search is leftmost and greedy). */
module Replace {
  import opened Text
  import opened Pattern

  /** The word matches at the start of `s`, ignoring ASCII case. */
  predicate MatchesAt(s: String, word: String) {
    |word| <= |s| && forall k :: 0 <= k < |word| ==> SameIgnoringCase(s[k], word[k])
  }

  datatype Piece = Kept(c: char) | Hit(text: String)

  function PieceText(p: Piece): String {
    match p
    case Kept(c) => [c]
    case Hit(t) => t
  }

  /** The subject spelled by the pieces, without any markup. */
  function Plain(ps: seq<Piece>): String {
    if ps == [] then [] else PieceText(ps[0]) + Plain(ps[1..])
  }

  /** The global search as String.prototype.replace performs it: try the word at each
      position from the left; on a match, take the matched stretch and continue after it;
      otherwise keep one character and move on. An empty word matches, emptily, at every
      position including the end, and the search then steps over one character. */
  function Scan(s: String, word: String): seq<Piece>
    decreases |s|
  {
    if MatchesAt(s, word) then
      if word == [] then
        [Hit([])] + (if s == [] then [] else [Kept(s[0])] + Scan(s[1..], word))
      else
        [Hit(s[..|word|])] + Scan(s[|word|..], word)
    else if s == [] then []
    else [Kept(s[0])] + Scan(s[1..], word)
  }

  function OpenTag(color: String): String {
    "<span style=\"background-color: " + color + "\">"
  }

  const CloseTag: String := "</span>"

  /** The number of matched stretches among the pieces. */
  function HitCount(ps: seq<Piece>): nat {
    if ps == [] then 0 else (if ps[0].Hit? then 1 else 0) + HitCount(ps[1..])
  }

  /** The replacement text with `$1` filled in by the matched stretch: the subject spelled
      by the pieces, plus one opening and one closing tag per matched stretch. */
  function Render(ps: seq<Piece>, color: String): (r: String)
    ensures |r| == |Plain(ps)| + HitCount(ps) * TagsLength(color)
  {
    if ps == [] then []
    else
      match ps[0]
      case Kept(c) => [c] + Render(ps[1..], color)
      case Hit(t) =>
        MulStep(HitCount(ps[1..]), TagsLength(color));
        OpenTag(color) + t + CloseTag + Render(ps[1..], color)
  }

  /** The characters one span adds around a matched stretch. */
  function TagsLength(color: String): nat {
    |OpenTag(color)| + |CloseTag|
  }

  lemma MulStep(h: nat, t: nat)
    ensures (h + 1) * t == h * t + t
  {
  }

  /** Every occurrence of `word` in `s` wrapped in a span of the given colour. */
  function Wrap(s: String, word: String, color: String): String {
    Render(Scan(s, word), color)
  }

  /** `subject.replace(new RegExp(source, 'gi'), template)` for a source `(body)` whose
      body is a literal (see Pattern.GroupLiteral). */
  function ReplaceAll(subject: String, source: String, color: String): String
    requires GroupLiteral(source).Some?
  {
    Wrap(subject, GroupLiteral(source).value, color)
  }

  /** One highlighting step of the component: escape the word, build the regex and replace
      every occurrence. Because of the escape this is the literal search for the word. */
  function HighlightWord(html: String, word: String, color: String): (r: String)
    ensures r == Wrap(html, word, color)
  {
    SourceCapturesWord(word);
    ReplaceAll(html, Source(word), color)
  }

  /** The pieces a leftmost, non-overlapping search for a non-empty word must produce:
      they spell `s`; each matched stretch is the word up to case; and a character left
      as it is never starts an occurrence of the word in what remains. */
  ghost predicate IsLeftmostSearch(ps: seq<Piece>, s: String, word: String) {
    && Plain(ps) == s
    && (forall j :: 0 <= j < |ps| && ps[j].Hit? ==>
          |ps[j].text| == |word| && MatchesAt(ps[j].text, word))
    && (forall j :: 0 <= j < |ps| && ps[j].Kept? ==> !MatchesAt(Plain(ps[j..]), word))
  }

  lemma ShiftPieces(p: Piece, rest: seq<Piece>)
    ensures forall j :: 1 <= j <= |rest| ==> ([p] + rest)[j..] == rest[j - 1..]
    ensures Plain([p] + rest) == PieceText(p) + Plain(rest)
  {
    assert ([p] + rest)[1..] == rest;
  }

  /** Every matched stretch of the scan is the word, up to case. */
  lemma {:induction false} ScanHitsMatch(s: String, word: String)
    ensures forall j :: 0 <= j < |Scan(s, word)| && Scan(s, word)[j].Hit? ==>
              |Scan(s, word)[j].text| == |word| && MatchesAt(Scan(s, word)[j].text, word)
    decreases |s|
  {
    var ps := Scan(s, word);
    if MatchesAt(s, word) && word == [] {
      if s != [] {
        ScanHitsMatch(s[1..], word);
        var rest := Scan(s[1..], word);
        assert ps == [Hit([]), Kept(s[0])] + rest;
        forall j | 2 <= j < |ps| ensures ps[j] == rest[j - 2] { }
      }
    } else if MatchesAt(s, word) || s != [] {
      var n := if MatchesAt(s, word) then |word| else 1;
      ScanHitsMatch(s[n..], word);
      var rest := Scan(s[n..], word);
      assert ps == [ps[0]] + rest;
      forall j | 1 <= j < |ps| ensures ps[j] == rest[j - 1] { }
    }
  }

  /** No character the scan of a non-empty word leaves as it is starts an occurrence of
      the word in the rest of the subject. */
  lemma {:induction false} ScanKeptDoNotMatch(s: String, word: String)
    requires word != []
    ensures forall j :: 0 <= j < |Scan(s, word)| && Scan(s, word)[j].Kept? ==>
              !MatchesAt(Plain(Scan(s, word)[j..]), word)
    decreases |s|
  {
    var ps := Scan(s, word);
    if s != [] {
      var n := if MatchesAt(s, word) then |word| else 1;
      ScanKeptDoNotMatch(s[n..], word);
      var rest := Scan(s[n..], word);
      assert ps == [ps[0]] + rest;
      forall j | 0 <= j < |ps| && ps[j].Kept?
        ensures !MatchesAt(Plain(ps[j..]), word)
      {
        if j == 0 {
          ScanSpellsSubject(s, word);
          assert ps[0..] == ps;
        } else {
          assert ps[j..] == rest[j - 1..];
        }
      }
    }
  }

  /** The scan is a leftmost, non-overlapping search. */
  lemma ScanIsLeftmostSearch(s: String, word: String)
    requires word != []
    ensures IsLeftmostSearch(Scan(s, word), s, word)
  {
    ScanSpellsSubject(s, word);
    ScanHitsMatch(s, word);
    ScanKeptDoNotMatch(s, word);
  }

  /** The leftmost, non-overlapping search is unique: any cut of `s` with those three
      properties is the scan. */
  lemma {:induction false} LeftmostSearchIsScan(ps: seq<Piece>, s: String, word: String)
    requires word != []
    requires IsLeftmostSearch(ps, s, word)
    ensures ps == Scan(s, word)
    decreases |ps|
  {
    if ps != [] {
      var rest := ps[1..];
      ShiftPieces(ps[0], rest);
      assert ps == [ps[0]] + rest;
      forall j | 0 <= j < |rest| && rest[j].Kept?
        ensures !MatchesAt(Plain(rest[j..]), word)
      {
        assert rest[j] == ps[j + 1];
      }
      forall j | 0 <= j < |rest| && rest[j].Hit?
        ensures |rest[j].text| == |word| && MatchesAt(rest[j].text, word)
      {
        assert rest[j] == ps[j + 1];
      }
      LeftmostSearchIsScan(rest, Plain(rest), word);
      match ps[0]
      case Hit(t) =>
        assert s == t + Plain(rest);
        assert s[..|word|] == t && s[|word|..] == Plain(rest);
      case Kept(c) =>
        assert ps[0..] == ps;
        assert s == [c] + Plain(rest);
        assert s[1..] == Plain(rest);
    }
  }

  /** Removing the inserted spans gives back the subject: the pieces of the scan spell
      exactly the input. */
  lemma {:induction false} ScanSpellsSubject(s: String, word: String)
    ensures Plain(Scan(s, word)) == s
    decreases |s|
  {
    if MatchesAt(s, word) {
      if word == [] {
        if s != [] {
          ScanSpellsSubject(s[1..], word);
          ShiftPieces(Kept(s[0]), Scan(s[1..], word));
          var tail := [Kept(s[0])] + Scan(s[1..], word);
          ShiftPieces(Hit([]), tail);
          assert s == [s[0]] + s[1..];
        }
      } else {
        ScanSpellsSubject(s[|word|..], word);
        ShiftPieces(Hit(s[..|word|]), Scan(s[|word|..], word));
        assert s == s[..|word|] + s[|word|..];
      }
    } else if s != [] {
      ScanSpellsSubject(s[1..], word);
      ShiftPieces(Kept(s[0]), Scan(s[1..], word));
      assert s == [s[0]] + s[1..];
    }
  }

  /** An empty word wraps an empty span before every character and one at the end:
      `|s| + 1` empty matches, with the characters of `s` between them. */
  lemma {:induction false} ScanEmptyWord(s: String)
    ensures |Scan(s, [])| == 2 * |s| + 1
    ensures forall j :: 0 <= j < |Scan(s, [])| ==>
              Scan(s, [])[j] == if j % 2 == 0 then Hit([]) else Kept(s[j / 2])
    decreases |s|
  {
    if s != [] {
      ScanEmptyWord(s[1..]);
      var ps := Scan(s, []);
      var rest := Scan(s[1..], []);
      assert ps == [Hit([]), Kept(s[0])] + rest;
      forall j | 2 <= j < |ps|
        ensures ps[j] == if j % 2 == 0 then Hit([]) else Kept(s[j / 2])
      {
        assert ps[j] == rest[j - 2];
        assert (j - 2) % 2 == j % 2 && (j - 2) / 2 == j / 2 - 1;
      }
    }
  }

  /** A word that occurs nowhere leaves the subject unchanged. */
  lemma NoOccurrenceNoChange(s: String, word: String, color: String)
    requires word != []
    requires forall i :: 0 <= i <= |s| ==> !MatchesAt(s[i..], word)
    ensures Wrap(s, word, color) == s
  {
    var ps := seq(|s|, i requires 0 <= i < |s| => Kept(s[i]));
    KeptPiecesSpell(s);
    forall j | 0 <= j < |ps| && ps[j].Kept?
      ensures !MatchesAt(Plain(ps[j..]), word)
    {
      KeptPiecesSpell(s[j..]);
      assert ps[j..] == seq(|s[j..]|, i requires 0 <= i < |s[j..]| => Kept(s[j..][i]));
    }
    LeftmostSearchIsScan(ps, s, word);
    KeptPiecesRender(s, color);
  }

  lemma {:induction false} KeptPiecesSpell(s: String)
    ensures Plain(seq(|s|, i requires 0 <= i < |s| => Kept(s[i]))) == s
    decreases |s|
  {
    if s != [] {
      var ps := seq(|s|, i requires 0 <= i < |s| => Kept(s[i]));
      KeptPiecesSpell(s[1..]);
      assert ps[1..] == seq(|s[1..]|, i requires 0 <= i < |s[1..]| => Kept(s[1..][i]));
      assert s == [s[0]] + s[1..];
    }
  }

  lemma {:induction false} KeptPiecesRender(s: String, color: String)
    ensures Render(seq(|s|, i requires 0 <= i < |s| => Kept(s[i])), color) == s
    decreases |s|
  {
    if s != [] {
      var ps := seq(|s|, i requires 0 <= i < |s| => Kept(s[i]));
      KeptPiecesRender(s[1..], color);
      assert ps[1..] == seq(|s[1..]|, i requires 0 <= i < |s[1..]| => Kept(s[1..][i]));
      assert s == [s[0]] + s[1..];
    }
  }

  /** Highlighting the word `span` after any other word also finds `span` inside the tag
      just inserted: later words are searched in markup as well as in the text, so the
      result may contain spans nested in span tags. */
  lemma LaterWordMatchesInsideMarkup(s: String, word: String, color: String)
    requires word != [] && MatchesAt(s, word)
    ensures var ps := Scan(Wrap(s, word, color), "span");
            |ps| >= 2 && ps[0] == Kept('<') && ps[1] == Hit("span")
  {
    var w := Wrap(s, word, color);
    var rest := Render(Scan(s[|word|..], word), color);
    assert w == OpenTag(color) + s[..|word|] + CloseTag + rest;
    assert w[..5] == "<span";
    assert w[0] == '<' by { assert w[..5][0] == w[0]; }
    assert Lower('<') == '<' && Lower('s') == 's';
    assert !MatchesAt(w, "span") by { assert "span"[0] == 's'; assert !SameIgnoringCase(w[0], 's'); }
    forall k | 0 <= k < 4 ensures w[1..][..4][k] == "span"[k] {
      assert w[1..][..4][k] == w[..5][k + 1];
    }
    assert w[1..][..4] == "span";
    assert MatchesAt(w[1..], "span");
    assert Scan(w[1..], "span") == [Hit("span")] + Scan(w[1..][4..], "span");
    assert w != [] && !MatchesAt(w, "span");
    assert Scan(w, "span") == [Kept(w[0])] + Scan(w[1..], "span");
  }
}
