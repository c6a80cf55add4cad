/** The state of the App component and the handlers that change it: choosing a file,
    clearing it, adding and removing rules, picking a colour, and applying the matcher's
    reply. The requests to the matcher are returned as values and its replies are passed
    in, so each handler runs to completion in one call. */
module Component {
  import opened Wrappers
  import opened Text
  import opened Rules
  import opened Applier
  import opened Dispatch

  /** What a reply offers in `data.content`: a list of word lists, one per rule in the
      order the rules were sent, or anything else (no content, content that is not an
      array, or a request that failed). */
  datatype Reply = WordLists(lists: seq<seq<String>>) | NoWordLists

  /** The body posted to the matcher: `{ content, highlights }`. */
  datatype Request = Request(content: String, highlights: seq<Rule>)

  /** The outcome of converting a Word document: its HTML and raw text, or an error. */
  datatype Conversion = Converted(html: String, text: String) | ConversionFailed(error: String)

  /** The content sent in place of a PDF's text. */
  const PdfPlaceholder: String := "PDF content not extracted client-side"

  /** The text kept when a Word document cannot be read. */
  const ReadError: String := "Error reading document"

  class App {
    var fileType: FileType
    var pdfUrl: Option<String>
    var docHtml: String
    var plainText: String
    var originalDocHtml: String
    var highlights: seq<Rule>
    var selectedColor: String

    /** Every colour the component holds is `#rrggbb`: the palette's and the colour
        input's colours are. */
    ghost predicate Valid()
      reads this
    {
      IsHexColor(selectedColor) && AllHexColors(highlights)
    }

    constructor ()
      ensures Valid()
      ensures fileType == NoFile && pdfUrl == None
      ensures docHtml == [] && plainText == [] && originalDocHtml == []
      ensures highlights == [] && selectedColor == InitialColor
    {
      PaletteWellFormed();
      fileType := NoFile;
      pdfUrl := None;
      docHtml := "";
      plainText := "";
      originalDocHtml := "";
      highlights := [];
      selectedColor := "#4285F4";
    }

    /** `handleFile`: nothing happens without a file; a PDF is shown from its object URL;
        a Word document's conversion replaces the HTML, the unmodified HTML and the text
        (a failed one shows the error and leaves the unmodified HTML as it was); any other
        file shows the unsupported message. */
    method HandleFile(file: Option<String>, objectUrl: String, conversion: Conversion)
      requires Valid()
      modifies this`fileType, this`pdfUrl, this`docHtml, this`originalDocHtml, this`plainText
      ensures Valid()
      ensures file == None ==>
                fileType == old(fileType) && pdfUrl == old(pdfUrl) && docHtml == old(docHtml) &&
                originalDocHtml == old(originalDocHtml) && plainText == old(plainText)
      ensures file.Some? && Classify(file.value) == Pdf ==>
                fileType == Pdf && pdfUrl == Some(objectUrl) && docHtml == [] &&
                originalDocHtml == old(originalDocHtml) && plainText == old(plainText)
      ensures file.Some? && Classify(file.value) == Doc && conversion.Converted? ==>
                fileType == Doc && pdfUrl == None && docHtml == conversion.html &&
                originalDocHtml == conversion.html && plainText == conversion.text
      ensures file.Some? && Classify(file.value) == Doc && conversion.ConversionFailed? ==>
                fileType == Doc && pdfUrl == None && docHtml == conversion.error &&
                originalDocHtml == old(originalDocHtml) && plainText == ReadError
      ensures file.Some? && Classify(file.value) == NoFile ==>
                fileType == NoFile && pdfUrl == None && docHtml == UnsupportedMessage &&
                originalDocHtml == old(originalDocHtml) && plainText == old(plainText)
    {
      if file == None {
        return;
      }
      var kind := Classify(file.value);
      if kind == Pdf {
        fileType := Pdf;
        docHtml := "";
        pdfUrl := Some(objectUrl);
      } else if kind == Doc {
        fileType := Doc;
        pdfUrl := None;
        match conversion
        case Converted(html, text) =>
          docHtml := html;
          originalDocHtml := html;
          plainText := text;
        case ConversionFailed(error) =>
          docHtml := error;
          plainText := ReadError;
      } else {
        fileType := NoFile;
        pdfUrl := None;
        docHtml := UnsupportedMessage;
      }
    }

    /** `clearSelection`: forgets the document; the rules and the colour stay. */
    method ClearSelection()
      requires Valid()
      modifies this`fileType, this`pdfUrl, this`docHtml, this`originalDocHtml, this`plainText
      ensures Valid()
      ensures fileType == NoFile && pdfUrl == None
      ensures docHtml == [] && originalDocHtml == [] && plainText == []
    {
      fileType := NoFile;
      pdfUrl := None;
      docHtml := "";
      originalDocHtml := "";
      plainText := "";
    }

    /** The colour input: the browser reports a `#rrggbb` colour, which may lie outside
        the palette. */
    method SetSelectedColor(color: String)
      requires Valid() && IsHexColor(color)
      modifies this`selectedColor
      ensures Valid() && selectedColor == color
    {
      selectedColor := color;
    }

    /** `addHighlight`: a description that trims to nothing changes nothing; otherwise the
        trimmed description is appended as a rule in the selected colour, and the selected
        colour moves on through the palette. */
    method AddHighlight(description: String)
      requires Valid()
      modifies this`highlights, this`selectedColor
      ensures Valid()
      ensures Trim(description) == [] ==>
                highlights == old(highlights) && selectedColor == old(selectedColor)
      ensures Trim(description) != [] ==>
                highlights == old(highlights) + [Rule(old(selectedColor), Trim(description))] &&
                selectedColor == NextColor(old(selectedColor))
    {
      var trimmed := Trim(description);
      if trimmed != [] {
        AllHexColorsAppend(highlights, Rule(selectedColor, trimmed));
        highlights := highlights + [Rule(selectedColor, trimmed)];
        selectedColor := NextColor(selectedColor);
      }
    }

    /** `removeHighlight`: drops the rule at `index`. With a Word document and rules left,
        the remaining rules are sent again (the returned request) and a reply with word
        lists is applied to the unmodified HTML; with no rules left the unmodified HTML is
        restored; otherwise the shown HTML stays. */
    method RemoveHighlight(index: int, reply: Reply) returns (request: Option<Request>)
      requires Valid()
      modifies this`highlights, this`docHtml
      ensures Valid()
      ensures highlights == WithoutIndex(old(highlights), index)
      ensures fileType == Doc && highlights != [] ==>
                request == Some(Request(plainText, highlights)) &&
                docHtml == (if reply.WordLists?
                            then Applied(originalDocHtml, highlights, reply.lists)
                            else old(docHtml))
      ensures !(fileType == Doc && highlights != []) ==> request == None
      ensures highlights == [] ==> docHtml == originalDocHtml
      ensures fileType != Doc && highlights != [] ==> docHtml == old(docHtml)
    {
      var updatedHighlights := WithoutIndex(highlights, index);
      RemoveAtIndex(highlights, index);
      highlights := updatedHighlights;
      if fileType == Doc && |updatedHighlights| > 0 {
        request := Some(Request(plainText, updatedHighlights));
        if reply.WordLists? {
          var highlightedHtml := Highlight(originalDocHtml, updatedHighlights, reply.lists);
          docHtml := highlightedHtml;
        }
      } else {
        request := None;
        if |updatedHighlights| == 0 {
          docHtml := originalDocHtml;
        }
      }
    }

    /** `handleSend`: posts the text (or a placeholder for a non-Word file) with all rules;
        with a Word document, a reply with word lists replaces the shown HTML by the reply
        applied to the unmodified HTML, whatever was shown before. */
    method HandleSend(reply: Reply) returns (request: Request)
      requires Valid()
      modifies this`docHtml
      ensures Valid()
      ensures request == Request(if fileType == Doc then plainText else PdfPlaceholder, highlights)
      ensures docHtml == if fileType == Doc && reply.WordLists?
                         then Applied(originalDocHtml, highlights, reply.lists)
                         else old(docHtml)
    {
      var content := if fileType == Doc then plainText else PdfPlaceholder;
      request := Request(content, highlights);
      if fileType == Doc && reply.WordLists? {
        var highlightedHtml := Highlight(originalDocHtml, highlights, reply.lists);
        docHtml := highlightedHtml;
      }
    }
  }

  /** Sending the same rules and receiving the same reply twice shows the same HTML both
      times: each application starts again from the unmodified HTML. */
  method SendTwice(app: App, reply: Reply) returns (first: String, second: String)
    requires app.Valid()
    modifies app`docHtml
    ensures app.Valid()
    ensures first == second == app.docHtml
    ensures app.fileType == Doc && reply.WordLists? ==>
              first == Applied(app.originalDocHtml, app.highlights, reply.lists)
  {
    var _ := app.HandleSend(reply);
    first := app.docHtml;
    var _ := app.HandleSend(reply);
    second := app.docHtml;
  }
}
