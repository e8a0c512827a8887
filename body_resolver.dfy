/** The body-selection policy shared by the message record of
    src/gmail/search.ts and the result of src/gmail/get_message.ts. The
    helpers it calls come from `../util` and their definitions are not
    part of this model: they are any total functions of the given types. */
module BodyResolver {
  import opened Wrappers
  import opened GmailSchema

  /** What `getBodyFromParts` returns. */
  datatype PartsBodies = PartsBodies(textBody: string, htmlBody: string)

  /** The imported helpers `decodeBase64Url`, `extractTextFromHtml`,
      `getBodyFromParts` and `truncateText`, left uninterpreted. */
  datatype BodyHelpers = BodyHelpers(
    decodeBase64Url: string -> string,
    extractTextFromHtml: string -> string,
    getBodyFromParts: seq<MessagePart> -> PartsBodies,
    truncateText: (string, int) -> string)

  const HtmlMimeType: string := "text/html"

  /** `body.data || ""`. */
  function DataOrEmpty(body: PartBody): string {
    match body.data
    case Some(d) => d
    case None => ""
  }

  /** The body text before truncation: a direct `payload.body` wins (HTML
      reduced only for a `text/html` payload), then the parts' text body,
      then their HTML body; with neither, the empty text. */
  function SelectBody(h: BodyHelpers, payload: Option<MessagePart>): string {
    if payload.Some? && payload.value.body.Some? then
      var decoded := h.decodeBase64Url(DataOrEmpty(payload.value.body.value));
      if payload.value.mimeType == Some(HtmlMimeType) then h.extractTextFromHtml(decoded) else decoded
    else if payload.Some? && payload.value.parts.Some? then
      var bodies := h.getBodyFromParts(payload.value.parts.value);
      if bodies.textBody != "" then bodies.textBody else bodies.htmlBody
    else ""
  }

  /** The same helpers with HTML reduction replaced by the identity. */
  function WithoutHtmlReduction(h: BodyHelpers): (h': BodyHelpers)
    ensures h'.decodeBase64Url == h.decodeBase64Url && h'.getBodyFromParts == h.getBodyFromParts
    ensures forall s :: h'.extractTextFromHtml(s) == s
  {
    h.(extractTextFromHtml := s => s)
  }

  /** The payload carries a direct body declared as `text/html`. */
  predicate IsDirectHtml(payload: Option<MessagePart>) {
    payload.Some? && payload.value.body.Some? && payload.value.mimeType == Some(HtmlMimeType)
  }

  /** HTML reduction is applied exactly once on the direct `text/html` path
      and nowhere else: in particular HTML gathered from parts is returned
      with its markup. */
  lemma HtmlReductionOnlyForDirectHtml(h: BodyHelpers, payload: Option<MessagePart>)
    ensures SelectBody(h, payload) ==
      if IsDirectHtml(payload) then h.extractTextFromHtml(SelectBody(WithoutHtmlReduction(h), payload))
      else SelectBody(WithoutHtmlReduction(h), payload)
  {
  }

  /** A direct body is decoded from its data, an absent `data` counting as
      the empty text, and the parts are never consulted. */
  lemma DirectBodyIgnoresParts(h: BodyHelpers, p: MessagePart, otherParts: Option<seq<MessagePart>>)
    requires p.body.Some?
    ensures SelectBody(h, Some(p)) == SelectBody(h, Some(p.(parts := otherParts)))
    ensures p.mimeType != Some(HtmlMimeType) ==>
      SelectBody(h, Some(p)) == h.decodeBase64Url(DataOrEmpty(p.body.value))
    ensures p.body.value.data.None? ==>
      SelectBody(h, Some(p)) == SelectBody(h, Some(p.(body := Some(PartBody(Some(""))))))
  {
  }

  /** Without a direct body the parts decide: the text body when it is
      non-empty, otherwise the HTML body; no decoding or HTML reduction is
      applied on top, whatever those helpers are. */
  lemma PartsFallback(h: BodyHelpers, h': BodyHelpers, p: MessagePart)
    requires p.body.None? && p.parts.Some?
    requires h'.getBodyFromParts == h.getBodyFromParts
    ensures var bodies := h.getBodyFromParts(p.parts.value);
      && (bodies.textBody != "" ==> SelectBody(h, Some(p)) == bodies.textBody)
      && (bodies.textBody == "" ==> SelectBody(h, Some(p)) == bodies.htmlBody)
    ensures SelectBody(h, Some(p)) == SelectBody(h', Some(p))
  {
  }

  /** Missing content is the empty text, not an error. */
  lemma NoContentIsEmpty(h: BodyHelpers, payload: Option<MessagePart>)
    requires payload.None? || (payload.value.body.None? && payload.value.parts.None?)
    ensures SelectBody(h, payload) == ""
  {
  }
}
