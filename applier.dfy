/** The highlight applier shared by `removeHighlight` and `handleSend`: starting from the
    unmodified document HTML, for each word list of the matcher's reply (in index order)
    and for each word in it, wrap every occurrence of the word in a span coloured by the
    rule at the list's index. */
module Applier {
  import opened Text
  import opened Rules
  import opened Pattern
  import opened Replace

  /** The colour used for a list with no rule at its index. */
  const Fallback: String := "#ffff00"

  /** `rules[idx]?.color || '#ffff00'`: the rule's colour, or the fallback when there is no
      rule at that index or its colour is the empty (falsy) string. The colour is never
      empty, and with `#rrggbb` rules it is a `#rrggbb` colour, so it holds no `$`. */
  function ColorFor(rules: seq<Rule>, idx: nat): (r: String)
    ensures r != []
    ensures AllHexColors(rules) ==> IsHexColor(r) && '$' !in r
  {
    if idx < |rules| && rules[idx].color != [] then
      HexColorHasNoDollar(rules[idx].color);
      rules[idx].color
    else
      HexColorHasNoDollar(Fallback);
      Fallback
  }

  /** The inner `words.forEach`, as the state after the words seen so far. */
  function ApplyWords(html: String, words: seq<String>, color: String): String
    decreases |words|
  {
    if words == [] then html
    else HighlightWord(ApplyWords(html, words[..|words| - 1], color), words[|words| - 1], color)
  }

  /** The outer `data.content.forEach`, as the state after the lists seen so far. */
  function Applied(original: String, rules: seq<Rule>, reply: seq<seq<String>>): String
    decreases |reply|
  {
    if reply == [] then original
    else
      ApplyWords(Applied(original, rules, reply[..|reply| - 1]), reply[|reply| - 1],
                 ColorFor(rules, |reply| - 1))
  }

  /** The two nested loops, reassigning `highlightedHtml` word by word. */
  method Highlight(originalDocHtml: String, rules: seq<Rule>, reply: seq<seq<String>>)
    returns (highlightedHtml: String)
    ensures highlightedHtml == Applied(originalDocHtml, rules, reply)
  {
    highlightedHtml := originalDocHtml;
    var idx := 0;
    while idx < |reply|
      invariant 0 <= idx <= |reply|
      invariant highlightedHtml == Applied(originalDocHtml, rules, reply[..idx])
    {
      var words := reply[idx];
      var color := if idx < |rules| && rules[idx].color != "" then rules[idx].color else Fallback;
      ghost var before := highlightedHtml;
      var k := 0;
      while k < |words|
        invariant 0 <= k <= |words|
        invariant highlightedHtml == ApplyWords(before, words[..k], color)
      {
        var escapedWord := Escape(words[k]);
        ReplaceEscaped(highlightedHtml, words[k], color);
        highlightedHtml := ReplaceAll(highlightedHtml, "(" + escapedWord + ")", color);
        ApplyWordsStep(before, words, k, color);
        k := k + 1;
      }
      AppliedStep(originalDocHtml, rules, reply, idx);
      assert words[..k] == words;
      idx := idx + 1;
    }
    assert reply[..idx] == reply;
  }

  lemma ReplaceEscaped(html: String, word: String, color: String)
    ensures GroupLiteral("(" + Escape(word) + ")").Some?
    ensures ReplaceAll(html, "(" + Escape(word) + ")", color) == HighlightWord(html, word, color)
  {
    SourceCapturesWord(word);
  }

  lemma ApplyWordsStep(html: String, words: seq<String>, k: nat, color: String)
    requires k < |words|
    ensures ApplyWords(html, words[..k + 1], color) ==
            HighlightWord(ApplyWords(html, words[..k], color), words[k], color)
  {
    assert words[..k + 1][..k] == words[..k];
  }

  lemma AppliedStep(original: String, rules: seq<Rule>, reply: seq<seq<String>>, idx: nat)
    requires idx < |reply|
    ensures Applied(original, rules, reply[..idx + 1]) ==
            ApplyWords(Applied(original, rules, reply[..idx]), reply[idx], ColorFor(rules, idx))
  {
    assert reply[..idx + 1][..idx] == reply[..idx];
  }

  /** One word of one list, with the colour of that list. */
  datatype Stroke = Stroke(word: String, color: String)

  function Row(words: seq<String>, color: String): seq<Stroke> {
    seq(|words|, k requires 0 <= k < |words| => Stroke(words[k], color))
  }

  /** The reply flattened into strokes: list `idx` contributes its words, in order, each
      with ColorFor(rules, idx), and lists follow one another in index order. */
  function StrokesFrom(rules: seq<Rule>, reply: seq<seq<String>>, idx: nat): seq<Stroke>
    decreases |reply|
  {
    if reply == [] then []
    else Row(reply[0], ColorFor(rules, idx)) + StrokesFrom(rules, reply[1..], idx + 1)
  }

  /** Applies the strokes one after the other, each to the result of the previous one. */
  function Paint(html: String, strokes: seq<Stroke>): String
    decreases |strokes|
  {
    if strokes == [] then html
    else Paint(Wrap(html, strokes[0].word, strokes[0].color), strokes[1..])
  }

  lemma {:induction false} PaintAppend(html: String, a: seq<Stroke>, b: seq<Stroke>)
    ensures Paint(html, a + b) == Paint(Paint(html, a), b)
    decreases |a|
  {
    if a != [] {
      assert (a + b)[0] == a[0] && (a + b)[1..] == a[1..] + b;
      PaintAppend(Wrap(html, a[0].word, a[0].color), a[1..], b);
    } else {
      assert a + b == b;
    }
  }

  lemma {:induction false} StrokesSnoc(rules: seq<Rule>, init: seq<seq<String>>, last: seq<String>, idx: nat)
    ensures StrokesFrom(rules, init + [last], idx) ==
            StrokesFrom(rules, init, idx) + Row(last, ColorFor(rules, idx + |init|))
    decreases |init|
  {
    if init == [] {
      assert [last][1..] == [];
      assert init + [last] == [last];
    } else {
      assert (init + [last])[0] == init[0] && (init + [last])[1..] == init[1..] + [last];
      StrokesSnoc(rules, init[1..], last, idx + 1);
    }
  }

  lemma RowSnoc(words: seq<String>, color: String)
    requires words != []
    ensures Row(words, color) == Row(words[..|words| - 1], color) + [Stroke(words[|words| - 1], color)]
  {
  }

  lemma {:induction false} ApplyWordsIsPaint(html: String, words: seq<String>, color: String)
    ensures ApplyWords(html, words, color) == Paint(html, Row(words, color))
    decreases |words|
  {
    if words != [] {
      var n := |words|;
      var init, last := words[..n - 1], [Stroke(words[n - 1], color)];
      calc {
        ApplyWords(html, words, color);
        HighlightWord(ApplyWords(html, init, color), words[n - 1], color);
        { ApplyWordsIsPaint(html, init, color); }
        HighlightWord(Paint(html, Row(init, color)), words[n - 1], color);
        Paint(Paint(html, Row(init, color)), last);
        { PaintAppend(html, Row(init, color), last); }
        Paint(html, Row(init, color) + last);
        { RowSnoc(words, color); }
        Paint(html, Row(words, color));
      }
    }
  }

  /** The applier processes the reply in index order, and within a list in word order; the
      word at each step is painted with the colour of the rule at its list's index (the
      fallback beyond the last rule), by a literal case-insensitive wrap. */
  lemma {:induction false} AppliedIsPaint(original: String, rules: seq<Rule>, reply: seq<seq<String>>)
    ensures Applied(original, rules, reply) == Paint(original, StrokesFrom(rules, reply, 0))
    decreases |reply|
  {
    if reply != [] {
      var n := |reply|;
      var init, last := reply[..n - 1], reply[n - 1];
      var c := ColorFor(rules, n - 1);
      calc {
        Applied(original, rules, reply);
        ApplyWords(Applied(original, rules, init), last, c);
        { ApplyWordsIsPaint(Applied(original, rules, init), last, c); }
        Paint(Applied(original, rules, init), Row(last, c));
        { AppliedIsPaint(original, rules, init); }
        Paint(Paint(original, StrokesFrom(rules, init, 0)), Row(last, c));
        { PaintAppend(original, StrokesFrom(rules, init, 0), Row(last, c)); }
        Paint(original, StrokesFrom(rules, init, 0) + Row(last, c));
        { StrokesSnoc(rules, init, last, 0); assert init + [last] == reply; }
        Paint(original, StrokesFrom(rules, reply, 0));
      }
    }
  }

  /** The result depends on the rules only through the colours picked for the reply's
      indices: descriptions, and rules beyond the reply, play no part. */
  lemma {:induction false} AppliedDependsOnColorsOnly(original: String, rules1: seq<Rule>,
                                                      rules2: seq<Rule>, reply: seq<seq<String>>)
    requires forall idx :: 0 <= idx < |reply| ==> ColorFor(rules1, idx) == ColorFor(rules2, idx)
    ensures Applied(original, rules1, reply) == Applied(original, rules2, reply)
    decreases |reply|
  {
    if reply != [] {
      AppliedDependsOnColorsOnly(original, rules1, rules2, reply[..|reply| - 1]);
    }
  }

  /** A reply whose lists are all empty restores the unmodified document: no highlight of
      an earlier reply survives. */
  lemma {:induction false} EmptyListsRestoreOriginal(original: String, rules: seq<Rule>,
                                                     reply: seq<seq<String>>)
    requires forall idx :: 0 <= idx < |reply| ==> reply[idx] == []
    ensures Applied(original, rules, reply) == original
    decreases |reply|
  {
    if reply != [] {
      EmptyListsRestoreOriginal(original, rules, reply[..|reply| - 1]);
    }
  }
}
