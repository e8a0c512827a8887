/** `GmailSearch` (src/gmail/search.ts): argument defaults, the error
    checks on the `messages.list` response, the dispatch on `resource`, and
    the per-message and per-thread records. The API calls and the
    `JSON.stringify` of the records are parameters. */
module Search {
  import opened Wrappers
  import opened Text
  import opened GmailSchema
  import opened BodyResolver

  const DefaultMaxResults: int := 10
  const DefaultResource: string := "messages"
  /** `truncateText(body, 50)`. */
  const MessageBodyLimit: int := 50

  /** The tool's arguments; `maxResults` and `resource` may be omitted. */
  datatype SearchArgs = SearchArgs(query: string, maxResults: Option<int>, resource: Option<string>)

  /** `response.data` of `messages.list`. */
  datatype ListData = ListData(messages: Option<seq<Message>>)
  datatype ListResponse = ListResponse(data: Option<ListData>)

  /** One record of `parseMessages`. */
  datatype ParsedMessage = ParsedMessage(
    id: Option<string>, threadId: Option<string>, snippet: Option<string>,
    body: string, subject: Option<string>, sender: Option<string>)

  /** One record of `parseThreads`: subject and sender are whole headers. */
  datatype ParsedThread = ParsedThread(
    id: Option<string>, snippet: Option<string>, body: string,
    subject: Option<Header>, sender: Option<Header>)

  /** The errors `_call` throws. */
  datatype SearchError = NoData | NoMessages | InvalidResource(resource: string)

  function ErrorText(e: SearchError): string {
    match e
    case NoData => "No data returned from Gmail"
    case NoMessages => "No messages returned from Gmail"
    case InvalidResource(r) => "Invalid resource: " + r
  }

  /** What the tool reaches outside itself: the three API calls (with the
      response already awaited), the util helpers, and `JSON.stringify`. */
  datatype SearchEnv = SearchEnv(
    listMessages: (string, int) -> ListResponse,
    getMessage: string -> Message,
    getThread: string -> Thread,
    helpers: BodyHelpers,
    stringifyMessages: seq<ParsedMessage> -> string,
    stringifyThreads: seq<ParsedThread> -> string)

  /** `message.id ?? ""`: the id the record's fetch asks for. */
  function FetchId(entry: Message): string {
    entry.id.GetOr("")
  }

  /** The record of one listed message, given the message fetched for it:
      ids and snippet from the list entry, subject and sender from the
      fetched message's headers, the selected body truncated to 50. */
  function ParseMessage(entry: Message, full: Message, h: BodyHelpers): ParsedMessage {
    var headers := PayloadHeaders(full.payload);
    ParsedMessage(
      entry.id, entry.threadId, entry.snippet,
      h.truncateText(SelectBody(h, full.payload), MessageBodyLimit),
      HeaderValue(headers, "Subject"), HeaderValue(headers, "From"))
  }

  /** `parseMessages`: one record per list entry, in list order. */
  function ParseMessages(entries: seq<Message>, env: SearchEnv): (records: seq<ParsedMessage>)
    ensures |records| == |entries|
    ensures forall i :: 0 <= i < |entries| ==>
      records[i] == ParseMessage(entries[i], env.getMessage(FetchId(entries[i])), env.helpers)
    decreases |entries|
  {
    if |entries| == 0 then []
    else [ParseMessage(entries[0], env.getMessage(FetchId(entries[0])), env.helpers)]
         + ParseMessages(entries[1..], env)
  }

  /** `part.body?.data ?? ""`. */
  function PartData(part: MessagePart): string {
    if part.body.Some? then part.body.value.data.GetOr("") else ""
  }

  /** `parts.map((part) => part.body?.data ?? "")`. */
  function PartDataList(parts: seq<MessagePart>): seq<string> {
    seq(|parts|, i requires 0 <= i < |parts| => PartData(parts[i]))
  }

  /** The thread body: the raw, still encoded data of the parts joined
      together when the payload has parts, else the payload's own data when
      non-empty, else the empty text. */
  function ThreadBody(payload: Option<MessagePart>): string {
    if payload.Some? && payload.value.parts.Some? then
      Join(PartDataList(payload.value.parts.value), "")
    else if payload.Some? && payload.value.body.Some? && payload.value.body.value.data.Some?
            && payload.value.body.value.data.value != "" then
      payload.value.body.value.data.value
    else ""
  }

  /** `threadData.data.messages?.[0]?.payload`. */
  function FirstPayload(thread: Thread): Option<MessagePart> {
    if thread.messages.Some? && |thread.messages.value| > 0 then thread.messages.value[0].payload else None
  }

  /** The record of one listed entry, given the thread fetched for it. */
  function ParseThread(entry: Message, thread: Thread): ParsedThread {
    var first := FirstPayload(thread);
    var headers := PayloadHeaders(first);
    ParsedThread(entry.id, entry.snippet, ThreadBody(first),
                 FindHeader(headers, "Subject"), FindHeader(headers, "From"))
  }

  /** `parseThreads`: one record per list entry, in list order. */
  function ParseThreads(entries: seq<Message>, env: SearchEnv): (records: seq<ParsedThread>)
    ensures |records| == |entries|
    ensures forall i :: 0 <= i < |entries| ==>
      records[i] == ParseThread(entries[i], env.getThread(FetchId(entries[i])))
    decreases |entries|
  {
    if |entries| == 0 then []
    else [ParseThread(entries[0], env.getThread(FetchId(entries[0])))] + ParseThreads(entries[1..], env)
  }

  /** `Result for the query ${query}:\n${json}`. */
  function ResultText(query: string, json: string): string {
    "Result for the query " + query + ":\n" + json
  }

  /** `_call`: list with the defaults applied, check the response, then
      dispatch on the resource. */
  function Call(args: SearchArgs, env: SearchEnv): Result<string, SearchError> {
    var maxResults := args.maxResults.GetOr(DefaultMaxResults);
    var resource := args.resource.GetOr(DefaultResource);
    var response := env.listMessages(args.query, maxResults);
    if response.data.None? then Failure(NoData)
    else if response.data.value.messages.None? then Failure(NoMessages)
    else
      var entries := response.data.value.messages.value;
      if resource == "messages" then
        Success(ResultText(args.query, env.stringifyMessages(ParseMessages(entries, env))))
      else if resource == "threads" then
        Success(ResultText(args.query, env.stringifyThreads(ParseThreads(entries, env))))
      else Failure(InvalidResource(resource))
  }

  /** The response as `messages.list` returns it for these arguments. */
  function ListFor(args: SearchArgs, env: SearchEnv): ListResponse {
    env.listMessages(args.query, args.maxResults.GetOr(DefaultMaxResults))
  }

  /** An omitted `maxResults` behaves as 10 and an omitted `resource` as
      `"messages"`. */
  lemma Defaults(args: SearchArgs, env: SearchEnv)
    ensures Call(args.(maxResults := None), env) == Call(args.(maxResults := Some(10)), env)
    ensures Call(args.(resource := None), env) == Call(args.(resource := Some("messages")), env)
  {
  }

  /** The search fails exactly when the list has no data, has no message
      array, or the resource is neither kind; the checks come in that order. */
  lemma Errors(args: SearchArgs, env: SearchEnv)
    ensures var response, resource := ListFor(args, env), args.resource.GetOr(DefaultResource);
      && (Call(args, env).Failure? <==>
            response.data.None? || response.data.value.messages.None?
            || (resource != "messages" && resource != "threads"))
      && (response.data.None? ==> Call(args, env) == Failure(NoData))
      && (response.data.Some? && response.data.value.messages.None? ==> Call(args, env) == Failure(NoMessages))
      && (Call(args, env).Failure? && Call(args, env).error.InvalidResource? ==>
            Call(args, env).error.resource == resource)
      && (Call(args, env).Failure? ==>
            ErrorText(Call(args, env).error) ==
              (if response.data.None? then "No data returned from Gmail"
               else if response.data.value.messages.None? then "No messages returned from Gmail"
               else "Invalid resource: " + resource))
  {
  }

  /** An empty message array is not an error: it yields an empty listing. */
  lemma EmptyListIsNotAnError(args: SearchArgs, env: SearchEnv)
    requires ListFor(args, env).data == Some(ListData(Some([])))
    ensures args.resource.GetOr(DefaultResource) == "messages" ==>
      Call(args, env) == Success(ResultText(args.query, env.stringifyMessages([])))
    ensures args.resource.GetOr(DefaultResource) == "threads" ==>
      Call(args, env) == Success(ResultText(args.query, env.stringifyThreads([])))
  {
  }

  /** `"messages"` lists message records and `"threads"` thread records, one
      per listed entry, each fetched by the entry's id. */
  lemma Dispatch(args: SearchArgs, env: SearchEnv, entries: seq<Message>)
    requires ListFor(args, env).data == Some(ListData(Some(entries)))
    ensures args.resource.GetOr(DefaultResource) == "messages" ==>
      Call(args, env) == Success(ResultText(args.query, env.stringifyMessages(ParseMessages(entries, env))))
    ensures args.resource.GetOr(DefaultResource) == "threads" ==>
      Call(args, env) == Success(ResultText(args.query, env.stringifyThreads(ParseThreads(entries, env))))
  {
  }

  /** The message record: the list entry's id, threadId and snippet as they
      are; subject and sender are the values of the first header called
      exactly `Subject` and `From`, absent when there is none; the body is
      the selected body truncated to 50. */
  lemma MessageRecord(entry: Message, full: Message, h: BodyHelpers)
    ensures var r, headers := ParseMessage(entry, full, h), PayloadHeaders(full.payload);
      && r.id == entry.id && r.threadId == entry.threadId && r.snippet == entry.snippet
      && r.body == h.truncateText(SelectBody(h, full.payload), 50)
      && IsFirstValue(headers, "Subject", r.subject)
      && IsFirstValue(headers, "From", r.sender)
  {
    var headers := PayloadHeaders(full.payload);
    HeaderValueIsFirstValue(headers, "Subject");
    HeaderValueIsFirstValue(headers, "From");
  }

  /** The thread record: the entry's id and snippet; subject and sender are
      the whole first `Subject` and `From` headers of the thread's first
      message, absent exactly when it has none. */
  lemma ThreadRecord(entry: Message, thread: Thread)
    ensures var r, headers := ParseThread(entry, thread), PayloadHeaders(FirstPayload(thread));
      && r.id == entry.id && r.snippet == entry.snippet
      && (r.subject.None? <==> forall i :: 0 <= i < |headers| ==> headers[i].name != Some("Subject"))
      && (forall i :: IsFirstMatch(headers, "Subject", i) ==> r.subject == Some(headers[i]))
      && (r.sender.None? <==> forall i :: 0 <= i < |headers| ==> headers[i].name != Some("From"))
      && (forall i :: IsFirstMatch(headers, "From", i) ==> r.sender == Some(headers[i]))
  {
    var headers := PayloadHeaders(FirstPayload(thread));
    forall i | IsFirstMatch(headers, "Subject", i)
      ensures FindHeader(headers, "Subject") == Some(headers[i])
    {
      FindHeaderReturnsFirstMatch(headers, "Subject", i);
    }
    forall i | IsFirstMatch(headers, "From", i)
      ensures FindHeader(headers, "From") == Some(headers[i])
    {
      FindHeaderReturnsFirstMatch(headers, "From", i);
    }
  }

  /** With parts, even an empty list of them, the thread body is exactly
      as long as their data together, so an empty list gives the empty
      text whatever the payload's own body holds. */
  lemma ThreadBodyLength(payload: MessagePart)
    requires payload.parts.Some?
    ensures var body := ThreadBody(Some(payload));
      && |body| == TotalLength(PartDataList(payload.parts.value))
      && (payload.parts.value == [] ==> body == "")
  {
    JoinEmptyLength(PartDataList(payload.parts.value));
  }

  /** With parts, the thread body is their raw data concatenated in part
      order, a part without data counting as empty: each part's data sits
      verbatim at the offset given by the lengths before it. */
  lemma ThreadBodyFromParts(payload: MessagePart, i: nat)
    requires payload.parts.Some? && i < |payload.parts.value|
    ensures var data := PartDataList(payload.parts.value);
      var body := ThreadBody(Some(payload));
      && Offset(data, i) + |PartData(payload.parts.value[i])| <= |body|
      && body[Offset(data, i)..Offset(data, i) + |PartData(payload.parts.value[i])|] == PartData(payload.parts.value[i])
  {
    var data := PartDataList(payload.parts.value);
    JoinEmptyAt(data, i);
  }

  /** Without parts, the thread body is the payload's own data, undecoded,
      or the empty text. */
  lemma ThreadBodyWithoutParts(payload: Option<MessagePart>)
    requires payload.None? || payload.value.parts.None?
    ensures payload.Some? && payload.value.body.Some? && payload.value.body.value.data.Some? ==>
      ThreadBody(payload) == payload.value.body.value.data.value
    ensures payload.None? || payload.value.body.None? || payload.value.body.value.data.None? ==>
      ThreadBody(payload) == ""
  {
  }
}
