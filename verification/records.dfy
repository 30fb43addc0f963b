/**
 * The parser records the converter consumes (one object of
 * `parsers_data.json` each) and the two prompts it sends (app.py lines
 * 122-160). The prompt prose is a fixed template; the model keeps only the
 * values the template interpolates.
 */
module Records {
  import opened Wrappers

  /** The four selectors the extractor may find; a missing key is `None`. */
  datatype Selectors = Selectors(content: Option<string>, title: Option<string>, author: Option<string>, cover: Option<string>)

  datatype ParserRecord = ParserRecord(jsFilename: string, className: string, baseUrls: seq<string>, selectors: Selectors)

  /**
   * Initial: the record's class name, its base URLs (interpolated through
   * `json.dumps`), the four selectors as the f-string prints them, and the
   * JavaScript source. Corrective: the previous error and the previous code.
   */
  datatype Prompt =
    | Initial(className: string, baseUrls: seq<string>, content: string, title: string, author: string, cover: string, jsCode: string)
    | Corrective(error: string, code: string)

  /** How an f-string prints an optional string: `None` prints as "None". */
  function Shown(value: Option<string>): (shown: string) {
    value.GetOr("None")
  }

  /**
   * The attempt-0 prompt of lines 123-146: it carries the record's class
   * name and base URLs, each selector as the f-string prints it (its value,
   * or "None" when the extractor found none), and the JavaScript source.
   */
  function InitialPrompt(rec: ParserRecord, jsCode: string): (p: Prompt)
    ensures p.Initial?
    ensures p.className == rec.className && p.baseUrls == rec.baseUrls && p.jsCode == jsCode
    ensures rec.selectors.content.Some? ==> p.content == rec.selectors.content.value
    ensures rec.selectors.content.None? ==> p.content == "None"
    ensures rec.selectors.title.Some? ==> p.title == rec.selectors.title.value
    ensures rec.selectors.title.None? ==> p.title == "None"
    ensures rec.selectors.author.Some? ==> p.author == rec.selectors.author.value
    ensures rec.selectors.author.None? ==> p.author == "None"
    ensures rec.selectors.cover.Some? ==> p.cover == rec.selectors.cover.value
    ensures rec.selectors.cover.None? ==> p.cover == "None"
  {
    Initial(rec.className, rec.baseUrls,
            Shown(rec.selectors.content), Shown(rec.selectors.title),
            Shown(rec.selectors.author), Shown(rec.selectors.cover), jsCode)
  }
}
