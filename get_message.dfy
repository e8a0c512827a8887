/** `GmailGetMessage._call` (src/gmail/get_message.ts): five first-match
    header lookups, the shared body selection truncated to 100, and the
    result text. The fetch and `JSON.stringify` are parameters. */
module GetMessage {
  import opened Wrappers
  import opened GmailSchema
  import opened BodyResolver

  /** `truncateText(body, 100)`. */
  const MessageBodyLimit: int := 100

  /** The object `_call` stringifies. */
  datatype MessageSummary = MessageSummary(
    subject: Option<string>, body: string, from: Option<string>,
    to: Option<string>, date: Option<string>, messageId: Option<string>)

  /** The summary of a fetched message. */
  function Summarize(full: Message, h: BodyHelpers): MessageSummary {
    var headers := PayloadHeaders(full.payload);
    MessageSummary(
      HeaderValue(headers, "Subject"),
      h.truncateText(SelectBody(h, full.payload), MessageBodyLimit),
      HeaderValue(headers, "From"),
      HeaderValue(headers, "To"),
      HeaderValue(headers, "Date"),
      HeaderValue(headers, "Message-ID"))
  }

  function ResultPrefix(messageId: string): string {
    "Result for the prompt " + messageId + " \n"
  }

  /** `_call`: fetch by the given id, then the prefix and the summary. */
  function Call(messageId: string, getMessage: string -> Message, h: BodyHelpers,
                stringify: MessageSummary -> string): (r: string)
    ensures |ResultPrefix(messageId)| <= |r| && r[..|ResultPrefix(messageId)|] == ResultPrefix(messageId)
    ensures r[|ResultPrefix(messageId)|..] == stringify(Summarize(getMessage(messageId), h))
  {
    ResultPrefix(messageId) + stringify(Summarize(getMessage(messageId), h))
  }

  /** Each of the five fields is the first match of its exact header name. */
  lemma SummaryHeaders(full: Message, h: BodyHelpers)
    ensures var s, headers := Summarize(full, h), PayloadHeaders(full.payload);
      && IsFirstValue(headers, "Subject", s.subject)
      && IsFirstValue(headers, "From", s.from)
      && IsFirstValue(headers, "To", s.to)
      && IsFirstValue(headers, "Date", s.date)
      && IsFirstValue(headers, "Message-ID", s.messageId)
  {
    var headers := PayloadHeaders(full.payload);
    HeaderValueIsFirstValue(headers, "Subject");
    HeaderValueIsFirstValue(headers, "From");
    HeaderValueIsFirstValue(headers, "To");
    HeaderValueIsFirstValue(headers, "Date");
    HeaderValueIsFirstValue(headers, "Message-ID");
  }

  /** A message without payload or without headers has all five header
      fields absent. */
  lemma NoHeadersAllAbsent(full: Message, h: BodyHelpers)
    requires full.payload.None? || full.payload.value.headers.None?
    ensures var s := Summarize(full, h);
      s.subject.None? && s.from.None? && s.to.None? && s.date.None? && s.messageId.None?
  {
  }

  /** The body on each of the three selection paths, truncated to 100: a
      direct body decoded from its data (absent data read as empty) and
      reduced from HTML only for a `text/html` payload; else the parts'
      text body, or their HTML body when the text body is empty; else the
      empty text. */
  lemma SummaryBody(full: Message, h: BodyHelpers)
    ensures var p, body := full.payload, Summarize(full, h).body;
      && (p.Some? && p.value.body.Some? ==>
            var decoded := h.decodeBase64Url(DataOrEmpty(p.value.body.value));
            body == h.truncateText(
              if p.value.mimeType == Some("text/html") then h.extractTextFromHtml(decoded) else decoded, 100))
      && (p.Some? && p.value.body.None? && p.value.parts.Some? ==>
            var bodies := h.getBodyFromParts(p.value.parts.value);
            body == h.truncateText(if bodies.textBody != "" then bodies.textBody else bodies.htmlBody, 100))
      && (p.None? || (p.value.body.None? && p.value.parts.None?) ==>
            body == h.truncateText("", 100))
  {
  }
}
