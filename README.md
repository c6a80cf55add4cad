# Selective Extraction: the client-side highlight pipeline

This project models the highlighting logic of the Selective Extraction document viewer.
The viewer is a React component, `frontend/src/App.jsx`. A user loads a Word document and
defines highlight rules. Each rule is a colour plus a description. A remote matcher gets
the rules and answers with one list of words per rule. The component then colours every
occurrence of those words in the document's HTML.

The model has four parts.

- **Rule store** (`Rules`, `Component.App.AddHighlight`, `Component.App.RemoveHighlight`).
  Rules are appended with a trimmed, non-blank description and removed by position. After
  each append the selected colour steps through an eight-colour palette. A colour outside
  the palette is followed by the palette's first colour.
- **Highlight applier** (`Pattern`, `Replace`, `Applier`). It always starts from the
  unmodified HTML. For each reply list, in index order, it takes the colour of the rule at
  that index, or `#ffff00` when there is none. For each word it escapes the regex syntax
  characters, builds the regex `(escaped)` with flags `gi`, and replaces each match `m` by
  `<span style="background-color: C">m</span>`. The escape makes the pattern a literal.
  The replacement is therefore a case-insensitive, global, leftmost, non-overlapping search
  for the word. `Replace` states it on pieces of the subject: a character left as it is, or
  a matched stretch. Later words are also searched inside markup that earlier words
  inserted (`Replace.LaterWordMatchesInsideMarkup`). The model makes no claim that spans do
  not nest. An empty word matches, emptily, before every character and at the end (strings
  are sequences of code points here; see "Left out").
- **State transitions** (`Component.App`). These are the component's state and the handlers
  that change it. The matcher's reply is an input: a sequence of word lists, or
  `NoWordLists` when `data.content` is missing or not an array. The request posted to the
  matcher is returned as a value.
- **File dispatch** (`Dispatch.Classify`). The file name is lower-cased. A name ending in
  `.pdf` gives `pdf`. A name ending in `.docx` or `.doc` gives `doc`. Any other name gives
  no type and the fixed "Unsupported file type" message.

The file input accepts `.pdf,.docx,.doc` (`frontend/src/App.jsx:166`) and the upload
panel reads "Supports PDF & DOCX files" (`frontend/src/App.jsx:173`). Any other name,
`.txt` included, takes the unsupported path (`Dispatch.ClassifyUnsupported`).

When a Word document fails to convert, the code shows the error and sets the text to
"Error reading document". It leaves `originalDocHtml` as it was, so it may still hold the
previous document. The model keeps that behaviour (`Component.App.HandleFile`).

Loading a PDF also leaves `originalDocHtml` as it was. After a Word document and then a
PDF, it still holds the Word HTML. Removing the last rule then sets the shown HTML to it
(`Component.App.RemoveHighlight`), and the page renders that HTML below the PDF
(`frontend/src/App.jsx:285`). The model keeps this behaviour too.

## Model

| member | source | states |
|---|---|---|
| Text.Trim | frontend/src/App.jsx:80-81 | `description.trim()` is never longer than the description and neither starts nor ends with white space; `Text.TrimIsCore` and `Text.TrimEmptyIffAllSpace` say which core it keeps |
| Text.IsSpace | frontend/src/App.jsx:80 | the characters `trim()` removes: the ECMAScript WhiteSpace code points (tab, vertical tab, form feed, space, no-break space, byte order mark and the Zs separators) and the LineTerminator code points (line feed, carriage return, line and paragraph separators) |
| Text.TrimStart | frontend/src/App.jsx:80-81 | the leading part of `trim`: the result is the suffix of the input that starts at its first non-space character, and everything dropped is white space |
| Text.TrimEnd | frontend/src/App.jsx:80-81 | the trailing part of `trim`: the result is the prefix of the input that ends at its last non-space character, and everything dropped is white space |
| Text.TrimIsCore | frontend/src/App.jsx:80-81 | `trim` gives exactly the core of the description between its leading and trailing white space, for any cut of the input into space, core and space |
| Text.TrimStartAt | frontend/src/App.jsx:80-81 | the leading white space `trim` drops ends exactly at the first non-space character |
| Text.TrimEndAt | frontend/src/App.jsx:80-81 | the trailing white space `trim` drops starts exactly after the last non-space character |
| Text.TrimEmptyIffAllSpace | frontend/src/App.jsx:80 | a description trims to the empty (falsy) string exactly when it is all white space, which is when `addHighlight` does nothing |
| Text.Lower | frontend/src/App.jsx:32 | the lower case of one character: `A`-`Z` map to `a`-`z`, every other character is left as it is |
| Text.ToLower | frontend/src/App.jsx:32 | `toLowerCase()` applied character by character, same length; `Text.ToLowerAppend` and `Text.LowerIdempotent` state that it distributes over concatenation and that applying it twice changes nothing more |
| Text.ToLowerAppend | frontend/src/App.jsx:32 | lower-casing a concatenation lower-cases each part |
| Text.LowerIdempotent | frontend/src/App.jsx:32 | a lower-cased name lower-cases to itself |
| Text.EndsWith | frontend/src/App.jsx:33-40 | `endsWith(suffix)`: the suffix is no longer than the string and equals its last characters |
| Rules.PaletteWellFormed | frontend/src/App.jsx:14-19 | the palette has eight distinct `#rrggbb` colours, and the initial colour is its first entry |
| Rules.IndexOf | frontend/src/App.jsx:83 | `indexOf` gives -1 exactly when the colour is not in the palette, and otherwise the first position holding it |
| Rules.Successor | frontend/src/App.jsx:83-85 | for any palette of distinct colours, the successor is always in the palette, the entry after the current colour's position, wrapping from the last entry to the first, or the first entry for a colour not in the palette |
| Rules.NextColor | frontend/src/App.jsx:83-85 | after an add, the colour at palette index `i` is followed by the one at `(i + 1) mod 8`; an off-palette colour is followed by the first entry; the result is always a palette colour |
| Rules.KeepOthers | frontend/src/App.jsx:90 | the position filter started at `pos` keeps one element fewer exactly when some position equals the index, and keeps no element that was not there |
| Rules.WithoutIndex | frontend/src/App.jsx:90 | `filter((_, i) => i !== index)` has one rule fewer exactly when the index is a position of the list, and no new rule; `Rules.RemoveAtIndex` gives its exact contents |
| Rules.KeepOthersInRange | frontend/src/App.jsx:90 | the position filter, started at any position, drops exactly the element whose position equals the index and keeps the others in order |
| Rules.KeepOthersOutOfRange | frontend/src/App.jsx:90 | when no position equals the index, the position filter keeps every element |
| Rules.RemoveAtIndex | frontend/src/App.jsx:90 | removing by index gives the rules before and after that index, in order, one fewer; an out-of-range index leaves the list unchanged |
| Pattern.IsSyntaxChar | frontend/src/App.jsx:107 | the fourteen characters of the escaped class: `. * + ? ^ $ { } ( ) [ ] \` and the vertical bar, which are the ECMAScript SyntaxCharacter set |
| Pattern.Escape | frontend/src/App.jsx:107 | the escape adds exactly one character per syntax character of the word; `Pattern.EscapeIsLiteral` and `Pattern.LiteralIsEscape` say which |
| Pattern.Source | frontend/src/App.jsx:108 | the regex source is the escaped word in one capturing group: it opens with `(`, closes with `)` and is at least two longer than the word |
| Pattern.Literal | frontend/src/App.jsx:108 | how `new RegExp` reads a body of ordinary characters and backslash-escaped syntax characters: each stands for itself; anything else (a bare syntax character, an escape with a meaning of its own) is outside the literal fragment |
| Pattern.GroupLiteral | frontend/src/App.jsx:108 | the text captured by the one group of a source `(body)` whose body is literal |
| Pattern.EscapeIsLiteral | frontend/src/App.jsx:107 | the escaped word is a pattern of ordinary characters and escaped syntax characters that denotes the word itself |
| Pattern.LiteralIsEscape | frontend/src/App.jsx:107 | every literal pattern denoting a word is that word's escape, so the escape adds only backslashes before syntax characters and changes nothing else |
| Pattern.SourceCapturesWord | frontend/src/App.jsx:107-108 | the regex source `(escaped)` has one capturing group whose body matches exactly the word (the escape round trip) |
| Pattern.EscapeKeepsPlainWord | frontend/src/App.jsx:107 | a word with no syntax character is left as it is by the escape |
| Replace.MatchesAt | frontend/src/App.jsx:108 | a literal pattern with the `i` flag matches at the start of the subject when each of its characters equals the subject's character up to case |
| Replace.Scan | frontend/src/App.jsx:108-109 | the global, case-insensitive search cut into pieces; `Replace.ScanIsLeftmostSearch` and `Replace.LeftmostSearchIsScan` show it is exactly the leftmost, non-overlapping search, and `Replace.ScanEmptyWord` covers the empty word |
| Replace.Render | frontend/src/App.jsx:109 | filling the template `<span style="background-color: C">$1</span>` gives the subject plus one opening and one closing tag per match, nothing else |
| Replace.Wrap | frontend/src/App.jsx:108-109 | the replace of every match by its span; `Replace.NoOccurrenceNoChange` and `Replace.ScanSpellsSubject` state what it leaves and what it keeps |
| Replace.ReplaceAll | frontend/src/App.jsx:108-109 | `replace` with a `gi` regex whose source is a group around a literal body is the wrap of the literal text; `Replace.HighlightWord` states this for the escaped word |
| Replace.HighlightWord | frontend/src/App.jsx:107-109 | escaping, building the `gi` regex and replacing gives the literal, case-insensitive wrap of every occurrence of the word |
| Replace.ScanHitsMatch | frontend/src/App.jsx:108-109 | every stretch the `gi` regex matches and wraps has the word's length and equals the word up to ASCII case |
| Replace.ScanKeptDoNotMatch | frontend/src/App.jsx:108-109 | for a non-empty word, no character the global replace leaves unwrapped starts an occurrence of the word in the rest of the subject |
| Replace.ScanIsLeftmostSearch | frontend/src/App.jsx:108-109 | for a non-empty word the pieces spell the subject, every matched stretch equals the word up to ASCII case, and no character left as it is starts an occurrence in the rest |
| Replace.LeftmostSearchIsScan | frontend/src/App.jsx:108-109 | those three properties determine the pieces: any leftmost non-overlapping search result equals the scan |
| Replace.ScanSpellsSubject | frontend/src/App.jsx:109 | removing the spans one replace inserts gives back its input: the pieces, without markup, spell the subject, and each match keeps its original case |
| Replace.ScanEmptyWord | frontend/src/App.jsx:108-109 | an empty word gives one empty match before each character and one at the end, with the characters between them, counting characters as code points |
| Replace.NoOccurrenceNoChange | frontend/src/App.jsx:109 | a word that occurs nowhere in the subject leaves it unchanged |
| Replace.LaterWordMatchesInsideMarkup | frontend/src/App.jsx:106-110 | after a word is wrapped, searching for `span` finds the tag name inside the inserted markup, so spans can nest |
| Applier.ColorFor | frontend/src/App.jsx:105 | the colour, the rule's own or `#ffff00`, is never empty, and with `#rrggbb` rules it is a `#rrggbb` colour without `$`, so the template gains no `$` pattern from it |
| Applier.ApplyWords | frontend/src/App.jsx:106-110 | the inner `words.forEach` as the state after the words seen so far; `Applier.ApplyWordsIsPaint` shows it wraps the words in list order |
| Applier.Applied | frontend/src/App.jsx:103-111 | the outer `forEach` as the state after the lists seen so far; `Applier.AppliedIsPaint`, `Applier.AppliedDependsOnColorsOnly` and `Applier.EmptyListsRestoreOriginal` state its order, its colours and its start from the unmodified HTML |
| Applier.ApplyWordsIsPaint | frontend/src/App.jsx:106-110 | the words of one list are wrapped one after the other, in list order, each in the list's colour |
| Applier.Highlight | frontend/src/App.jsx:103-111 | the nested loops compute the reply applied to the unmodified HTML, one word at a time |
| Applier.AppliedIsPaint | frontend/src/App.jsx:104-110 | lists are processed in index order and words in list order; each word is wrapped in the colour of the rule at its list's index, or `#ffff00` beyond the last rule or for an empty colour |
| Applier.AppliedDependsOnColorsOnly | frontend/src/App.jsx:105 | the result depends on the rules only through the colours chosen for the reply's indices |
| Applier.EmptyListsRestoreOriginal | frontend/src/App.jsx:103-112 | a reply whose lists are all empty gives back the unmodified HTML, so no earlier highlight survives |
| Dispatch.Classify | frontend/src/App.jsx:32-40 | the name is lower-cased, `.pdf` is tested first, then `.docx` or `.doc`; `Dispatch.ClassifyBySuffix` and `Dispatch.ClassifyUnsupported` state the three outcomes |
| Dispatch.ClassifyUnsupported | frontend/src/App.jsx:32-63 | a name is unsupported exactly when its lower-cased form ends in none of `.pdf`, `.docx` and `.doc` |
| Dispatch.ClassifyBySuffix | frontend/src/App.jsx:32-40 | a name whose ending lower-cases to `.pdf` is a PDF; one whose ending lower-cases to `.docx` or `.doc` is a Word document |
| Dispatch.ClassifyIgnoresCase | frontend/src/App.jsx:32 | the classification does not depend on the case of the name |
| Rules.HexColorHasNoDollar | frontend/src/App.jsx:109 | a `#rrggbb` colour holds no `$`, so inserting it into the replacement template adds no `$` pattern |
| Component.App.constructor | frontend/src/App.jsx:5-16 | the initial state: no file type, no PDF URL, empty HTML, text and unmodified HTML, no rules, colour `#4285F4` |
| Component.App.HandleFile | frontend/src/App.jsx:28-66 | no file changes nothing; a PDF sets the type and URL and empties the HTML; a converted Word document sets the HTML, unmodified HTML and text; a failed conversion shows the error and keeps the unmodified HTML; any other name shows the unsupported message |
| Component.App.ClearSelection | frontend/src/App.jsx:68-77 | the file type and PDF URL become null and the HTML, unmodified HTML and text become empty |
| Component.App.SetSelectedColor | frontend/src/App.jsx:188-191 | the colour input sets the selected colour to any `#rrggbb` colour |
| Component.App.AddHighlight | frontend/src/App.jsx:79-87 | a blank description changes neither the rules nor the colour; otherwise one rule with the selected colour and the trimmed description is appended, the earlier rules unchanged, and the colour moves to the next palette colour |
| Component.App.RemoveHighlight | frontend/src/App.jsx:89-119 | the rule at the index is removed; with a Word document and rules left, the remaining rules are sent and a reply with word lists is applied to the unmodified HTML; with no rules left the unmodified HTML is restored; otherwise the HTML stays |
| Component.App.HandleSend | frontend/src/App.jsx:121-147 | the request carries the text, or a placeholder for a non-Word file, and all rules; the HTML changes only for a Word document and a reply with word lists, and then becomes the reply applied to the unmodified HTML, whatever was shown before |
| Component.SendTwice | frontend/src/App.jsx:132-142 | applying the same reply twice shows the same HTML both times (idempotence) |

## Left out

- `backend/app.py` is not part of this model. It wraps a remote language-model call that cannot be modelled; its reply enters the model as an input.
- The `fetch` calls, their promise chains, the `.catch` logging, `console.log` and the `isLoading` flag are left out. A request is returned as a value and its reply is a parameter.
- Asynchrony is left out. Each reply is applied within the handler call that sent the request, so a reply arriving after other state changes is not modelled. Such a reply still uses the rules and unmodified HTML captured when it was sent.
- The Word conversion is asynchronous too (`frontend/src/App.jsx:43-57`). Until `reader.onload` runs, the code is in a state with `fileType` 'doc', no PDF URL and the previous HTML and text. `Component.App.HandleFile` applies the conversion's outcome in the same step, so that intermediate state is not modelled.
- `mammoth.convertToHtml`, `mammoth.extractRawText` and `FileReader` are foreign library and browser calls. Their outcome is the `Conversion` parameter. A thrown error is shown as its message string, where the code passes the error object.
- `URL.createObjectURL` is a browser call. Its result is the `objectUrl` parameter. The `revokeObjectURL` of the previous URL is left out.
- The connectivity check against `/api/hello`, the rendering, the DOM access through `getElementById` and `fileInputRef`, and the flags `isUploaderCollapsed` and `isHighlightSelectorVisible` are UI and are left out.
- Text.ToLower: only ASCII letters are folded, where `toLowerCase` folds all of Unicode.
- Replace.MatchesAt: the `i` flag is modelled as ASCII case folding, where JavaScript canonicalizes through Unicode upper case.
- The general regular-expression engine is left out. Only the literal fragment that escaped words fall into is modelled (`Pattern.GroupLiteral`).
- Replace.Render: the colour is inserted as it is. JavaScript would also expand `$` patterns in the colour. No colour the component holds contains `$`: `Component.App.Valid` keeps every colour `#rrggbb`, every handler keeps `Valid`, and `Rules.HexColorHasNoDollar` and `Applier.ColorFor` show such a colour has no `$`.
- Replace.Scan / Replace.ScanEmptyWord: strings are sequences of code points. The regex has no `u` flag, so JavaScript matches by UTF-16 code units and after an empty match it advances by one code unit. For an empty word it therefore also inserts an empty span between the two halves of a character outside the Basic Multilingual Plane, which the model does not. A non-empty word made of whole characters is unaffected, because it never matches half of such a character.
- A reply list that is not an array, or a word that is not a string, makes the JavaScript throw. This cannot be expressed, because the reply's type is a sequence of string sequences.
