/** The rule store: highlight rules, the eight-colour palette the colour picker cycles
    through, and the list operations behind adding and removing a rule. */
module Rules {
  import opened Text

  /** One highlight rule as the component stores it: `{ color, description }`. */
  datatype Rule = Rule(color: String, description: String)

  /** The predefined palette, in order. */
  const Palette: seq<String> :=
    ["#4285F4", "#34A853", "#EA4335", "#FBBC05", "#9B72F2", "#00BCD4", "#FF6B6B", "#4ECDC4"]

  /** The colour selected when the component starts. */
  const InitialColor: String := "#4285F4"

  predicate IsHexDigit(c: char) {
    '0' <= c <= '9' || 'a' <= c <= 'f' || 'A' <= c <= 'F'
  }

  /** A colour of the form `#rrggbb`: what the palette holds and what the browser's
      colour input reports. */
  predicate IsHexColor(c: String) {
    |c| == 7 && c[0] == '#' && forall i :: 1 <= i < 7 ==> IsHexDigit(c[i])
  }

  predicate AllHexColors(rules: seq<Rule>) {
    forall i :: 0 <= i < |rules| ==> IsHexColor(rules[i].color)
  }

  /** A `#rrggbb` colour holds no `$`, so a replacement template it is inserted into
      gains no `$` pattern from it. */
  lemma HexColorHasNoDollar(c: String)
    ensures IsHexColor(c) ==> '$' !in c
  {
  }

  lemma AllHexColorsAppend(rules: seq<Rule>, rule: Rule)
    requires AllHexColors(rules) && IsHexColor(rule.color)
    ensures AllHexColors(rules + [rule])
  {
  }

  lemma PaletteWellFormed()
    ensures |Palette| == 8
    ensures forall i :: 0 <= i < |Palette| ==> IsHexColor(Palette[i])
    ensures forall i, j :: 0 <= i < j < |Palette| ==> Palette[i] != Palette[j]
    ensures InitialColor == Palette[0]
  {
    forall i, j | 0 <= i < j < |Palette| ensures Palette[i] != Palette[j] {
      assert Palette[i][1] != Palette[j][1] || Palette[i][2] != Palette[j][2];
    }
  }

  /** Array.prototype.indexOf: the first position holding `x`, or -1 when there is none. */
  function IndexOf(s: seq<String>, x: String): (r: int)
    ensures -1 <= r < |s|
    ensures r == -1 <==> x !in s
    ensures 0 <= r ==> s[r] == x && forall j :: 0 <= j < r ==> s[j] != x
  {
    if s == [] then -1
    else if s[0] == x then 0
    else
      var k := IndexOf(s[1..], x);
      if k == -1 then -1 else k + 1
  }

  /** In a sequence without repetitions, indexOf finds each element at its own position. */
  lemma IndexOfDistinct(s: seq<String>)
    requires forall i, j :: 0 <= i < j < |s| ==> s[i] != s[j]
    ensures forall i :: 0 <= i < |s| ==> IndexOf(s, s[i]) == i
  {
    forall i | 0 <= i < |s| ensures IndexOf(s, s[i]) == i {
      var r := IndexOf(s, s[i]);
      assert s[r] == s[i];
    }
  }

  /** The entry after `current` in a palette without repetitions, wrapping around, or the
      first entry when `current` is not in it; indexOf gives -1 for a missing colour and
      -1 + 1 is 0. The sum is never negative, so JavaScript's truncating `%` and Dafny's
      agree here. */
  function Successor(palette: seq<String>, current: String): (r: String)
    requires |palette| > 0
    requires forall i, j :: 0 <= i < j < |palette| ==> palette[i] != palette[j]
    ensures r in palette
    ensures current !in palette ==> r == palette[0]
    ensures forall i {:trigger palette[i]} :: 0 <= i < |palette| && palette[i] == current ==>
              r == palette[if i + 1 < |palette| then i + 1 else 0]
  {
    IndexOfDistinct(palette);
    var k := IndexOf(palette, current);
    WrapIndex(k, |palette|);
    palette[(k + 1) % |palette|]
  }

  lemma WrapIndex(k: int, n: int)
    requires -1 <= k < n && n > 0
    ensures (k + 1) % n == if k + 1 < n then k + 1 else 0
  {
    if k + 1 == n {
      assert n % n == 0;
    }
  }

  /** The colour selected after a rule is added: the palette colour after the current
      one, cyclically, or the first palette colour after an off-palette one. */
  function NextColor(current: String): (r: String)
    ensures r in Palette && IsHexColor(r)
    ensures current !in Palette ==> r == Palette[0]
    ensures forall i {:trigger Palette[i]} :: 0 <= i < |Palette| && Palette[i] == current ==>
              r == Palette[if i + 1 < |Palette| then i + 1 else 0]
  {
    PaletteWellFormed();
    Successor(Palette, current)
  }

  /** The rules kept by `filter((_, i) => i !== index)`, visiting positions from `pos`. */
  function KeepOthers(s: seq<Rule>, index: int, pos: int): (r: seq<Rule>)
    ensures |r| == if pos <= index < pos + |s| then |s| - 1 else |s|
    ensures forall x :: x in r ==> x in s
    decreases |s|
  {
    if s == [] then []
    else (if pos != index then [s[0]] else []) + KeepOthers(s[1..], index, pos + 1)
  }

  /** `highlights.filter((_, i) => i !== index)`: one rule fewer exactly when the index is
      a position of the list, and no rule that was not there before. */
  function WithoutIndex(rules: seq<Rule>, index: int): (r: seq<Rule>)
    ensures |r| == if 0 <= index < |rules| then |rules| - 1 else |rules|
    ensures forall x :: x in r ==> x in rules
  {
    KeepOthers(rules, index, 0)
  }

  /** The position filter, started at position `pos`, keeps everything when no position
      equals the index. */
  lemma {:induction false} KeepOthersOutOfRange(s: seq<Rule>, index: int, pos: int)
    requires !(pos <= index < pos + |s|)
    ensures KeepOthers(s, index, pos) == s
    decreases |s|
  {
    if s != [] {
      KeepOthersOutOfRange(s[1..], index, pos + 1);
      assert s == [s[0]] + s[1..];
    }
  }

  /** The position filter, started at position `pos`, drops exactly the element whose
      position equals the index. */
  lemma {:induction false} KeepOthersInRange(s: seq<Rule>, index: int, pos: int)
    requires pos <= index < pos + |s|
    ensures KeepOthers(s, index, pos) == s[..index - pos] + s[index - pos + 1..]
    decreases |s|
  {
    var k := index - pos;
    if k == 0 {
      KeepOthersOutOfRange(s[1..], index, pos + 1);
      assert KeepOthers(s, index, pos) == KeepOthers(s[1..], index, pos + 1);
      assert s[..0] + s[1..] == s[1..];
    } else {
      KeepOthersInRange(s[1..], index, pos + 1);
      assert KeepOthers(s, index, pos) == [s[0]] + KeepOthers(s[1..], index, pos + 1);
      assert s[..k] == [s[0]] + s[1..][..k - 1];
      assert s[k + 1..] == s[1..][k..];
    }
  }

  /** Removing by position deletes exactly the rule at `index` and keeps the others in
      their order; an index outside the list removes nothing. */
  lemma RemoveAtIndex(rules: seq<Rule>, index: int)
    ensures 0 <= index < |rules| ==>
              WithoutIndex(rules, index) == rules[..index] + rules[index + 1..]
    ensures !(0 <= index < |rules|) ==> WithoutIndex(rules, index) == rules
    ensures 0 <= index < |rules| ==> |WithoutIndex(rules, index)| == |rules| - 1
  {
    if 0 <= index < |rules| {
      KeepOthersInRange(rules, index, 0);
    } else {
      KeepOthersOutOfRange(rules, index, 0);
    }
  }
}
