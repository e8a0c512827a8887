/** The parts of the mail API's records that the tools read, with every
    optional field explicit, and the first-match header lookup both
    src/gmail/search.ts and src/gmail/get_message.ts use. */
module GmailSchema {
  import opened Wrappers

  /** One entry of a part's header list; the API may omit either field. */
  datatype Header = Header(name: Option<string>, value: Option<string>)

  /** A part's body: `data` is the base64url-encoded content, when inline. */
  datatype PartBody = PartBody(data: Option<string>)

  /** A MIME part; a message's `payload` is the root part. */
  datatype MessagePart = MessagePart(
    mimeType: Option<string>,
    headers: Option<seq<Header>>,
    body: Option<PartBody>,
    parts: Option<seq<MessagePart>>)

  /** A message, as listed by `messages.list` (id and threadId only) or
      fetched by `messages.get`. */
  datatype Message = Message(
    id: Option<string>,
    threadId: Option<string>,
    snippet: Option<string>,
    payload: Option<MessagePart>)

  /** A thread as fetched by `threads.get`. */
  datatype Thread = Thread(id: Option<string>, snippet: Option<string>, messages: Option<seq<Message>>)

  /** `headers[i]` is the first header called exactly `name`. */
  predicate IsFirstMatch(headers: seq<Header>, name: string, i: int) {
    && 0 <= i < |headers|
    && headers[i].name == Some(name)
    && forall j :: 0 <= j < i ==> headers[j].name != Some(name)
  }

  /** `headers.find((header) => header.name === name)`. */
  function FindHeader(headers: seq<Header>, name: string): (r: Option<Header>)
    ensures r.None? <==> forall i :: 0 <= i < |headers| ==> headers[i].name != Some(name)
    ensures r.Some? ==> exists i :: IsFirstMatch(headers, name, i) && headers[i] == r.value
    decreases |headers|
  {
    if |headers| == 0 then None
    else if headers[0].name == Some(name) then
      assert IsFirstMatch(headers, name, 0);
      Some(headers[0])
    else
      var r := FindHeader(headers[1..], name);
      assert forall i :: 0 <= i < |headers| - 1 ==> headers[1..][i] == headers[i + 1];
      if r.Some? then
        var i :| IsFirstMatch(headers[1..], name, i) && headers[1..][i] == r.value;
        assert IsFirstMatch(headers, name, i + 1);
        r
      else
        r
  }

  /** `headers.find(...)?.value`: absent when no header matches, and also
      when the first match carries no value. */
  function HeaderValue(headers: seq<Header>, name: string): Option<string> {
    match FindHeader(headers, name)
    case Some(h) => h.value
    case None => None
  }

  /** `payload?.headers || []`. */
  function PayloadHeaders(payload: Option<MessagePart>): seq<Header> {
    if payload.Some? && payload.value.headers.Some? then payload.value.headers.value else []
  }

  /** There is at most one first match of a name. */
  lemma FirstMatchUnique(headers: seq<Header>, name: string, i: int, j: int)
    requires IsFirstMatch(headers, name, i) && IsFirstMatch(headers, name, j)
    ensures i == j
  {
  }

  /** The converse of `FindHeader`'s second clause: whenever a first match
      exists, the lookup returns exactly that header. */
  lemma FindHeaderReturnsFirstMatch(headers: seq<Header>, name: string, i: int)
    requires IsFirstMatch(headers, name, i)
    ensures FindHeader(headers, name) == Some(headers[i])
  {
    var r := FindHeader(headers, name);
    var j :| IsFirstMatch(headers, name, j) && headers[j] == r.value;
    FirstMatchUnique(headers, name, i, j);
  }

  /** `v` is what `find(...)?.value` yields: absent when no header has the
      name, and otherwise the value (present or not) of the first one that
      has it. At most one `v` satisfies this, see `FirstValueUnique`. */
  ghost predicate IsFirstValue(headers: seq<Header>, name: string, v: Option<string>) {
    && ((forall i :: 0 <= i < |headers| ==> headers[i].name != Some(name)) ==> v.None?)
    && (forall i :: IsFirstMatch(headers, name, i) ==> v == headers[i].value)
  }

  /** `IsFirstValue` pins the value down completely. */
  lemma FirstValueUnique(headers: seq<Header>, name: string, v: Option<string>, w: Option<string>)
    requires IsFirstValue(headers, name, v) && IsFirstValue(headers, name, w)
    ensures v == w
  {
    if exists i :: 0 <= i < |headers| && headers[i].name == Some(name) {
      var r := FindHeader(headers, name);
      var j :| IsFirstMatch(headers, name, j) && headers[j] == r.value;
      assert v == headers[j].value && w == headers[j].value;
    }
  }

  /** The lookup yields the first match's value, or nothing without a match. */
  lemma HeaderValueIsFirstValue(headers: seq<Header>, name: string)
    ensures IsFirstValue(headers, name, HeaderValue(headers, name))
  {
    forall i | IsFirstMatch(headers, name, i)
      ensures HeaderValue(headers, name) == headers[i].value
    {
      FindHeaderReturnsFirstMatch(headers, name, i);
    }
  }

  /** A header lookup never fails: on an empty list every value is absent. */
  lemma NoHeadersNoValues(name: string)
    ensures HeaderValue([], name) == None
  {
  }

  /** Only the first header of a name counts: headers appended after a
      match cannot change what the lookup returns. */
  lemma FirstMatchWins(headers: seq<Header>, more: seq<Header>, name: string)
    requires FindHeader(headers, name).Some?
    ensures FindHeader(headers + more, name) == FindHeader(headers, name)
  {
    var i :| IsFirstMatch(headers, name, i) && headers[i] == FindHeader(headers, name).value;
    assert IsFirstMatch(headers + more, name, i);
    FindHeaderReturnsFirstMatch(headers + more, name, i);
  }
}
