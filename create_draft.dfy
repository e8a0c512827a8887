/** `GmailCreateDraft.prepareDraftMessage` (src/gmail/create_draft.ts):
    the draft's message text is six lines joined by line feeds (To,
    Subject, Cc or nothing, Bcc or nothing, an empty line, the message),
    and the draft carries that text's UTF-8 bytes in base64url. */
module CreateDraft {
  import opened Wrappers
  import opened Text
  import Utf8
  import Base64Url

  /** `{ raw }`: the draft request's only field. */
  datatype DraftMessage = DraftMessage(raw: string)

  /** `{ message: { raw } }`. */
  datatype Draft = Draft(message: DraftMessage)

  const LineFeed: char := '\n'

  /** `${prefix}${addresses.join(", ")}`. */
  function AddressLine(prefix: string, addresses: seq<string>): string {
    prefix + Join(addresses, ", ")
  }

  /** `addresses ? AddressLine(prefix, addresses) : ""`: an absent list
      keeps its slot as an empty line. */
  function OptionalAddressLine(prefix: string, addresses: Option<seq<string>>): string {
    match addresses
    case Some(a) => AddressLine(prefix, a)
    case None => ""
  }

  /** The six lines of the draft text, in order. */
  function EmailLines(message: string, to: seq<string>, subject: string,
                      cc: Option<seq<string>>, bcc: Option<seq<string>>): seq<string>
  {
    [ AddressLine("To: ", to),
      "Subject: " + subject,
      OptionalAddressLine("Cc: ", cc),
      OptionalAddressLine("Bcc: ", bcc),
      "",
      message ]
  }

  /** The draft text: the six lines joined with line feeds. */
  function EmailText(message: string, to: seq<string>, subject: string,
                     cc: Option<seq<string>>, bcc: Option<seq<string>>): string
  {
    Join(EmailLines(message, to, subject, cc, bcc), [LineFeed])
  }

  /** `prepareDraftMessage`: `raw` is the unpadded base64url text of the
      UTF-8 bytes of the draft text; it decodes back to those bytes, uses
      only the URL-safe alphabet, never `=`, and has the unpadded length. */
  function PrepareDraftMessage(message: string, to: seq<string>, subject: string,
                               cc: Option<seq<string>>, bcc: Option<seq<string>>): (draft: Draft)
    ensures var bytes := Utf8.Encode(EmailText(message, to, subject, cc, bcc));
      && Base64Url.Decode(draft.message.raw) == Some(bytes)
      && |draft.message.raw| == Base64Url.EncodedLength(|bytes|)
    ensures forall i :: 0 <= i < |draft.message.raw| ==> Base64Url.IsUrlSafe(draft.message.raw[i])
    ensures '=' !in draft.message.raw
  {
    var bytes := Utf8.Encode(EmailText(message, to, subject, cc, bcc));
    Base64Url.DecodeEncode(bytes);
    Draft(DraftMessage(Base64Url.Encode(bytes)))
  }

  /** What a reader of the draft recovers from `raw`: base64url, then UTF-8. */
  function ReadDraft(draft: Draft): Option<string> {
    match Base64Url.Decode(draft.message.raw)
    case None => None
    case Some(bytes) => Utf8.Decode(bytes)
  }

  /** The draft carries the draft text exactly: reading it gives the text back. */
  lemma DraftRoundTrip(message: string, to: seq<string>, subject: string,
                       cc: Option<seq<string>>, bcc: Option<seq<string>>)
    ensures ReadDraft(PrepareDraftMessage(message, to, subject, cc, bcc)) == Some(EmailText(message, to, subject, cc, bcc))
  {
    Utf8.DecodeEncode(EmailText(message, to, subject, cc, bcc));
  }

  /** The draft text written out: To line, Subject line, Cc slot, Bcc slot,
      each ended by a line feed, then an empty line, then the message. */
  lemma EmailLayout(message: string, to: seq<string>, subject: string,
                    cc: Option<seq<string>>, bcc: Option<seq<string>>)
    ensures EmailText(message, to, subject, cc, bcc) ==
      "To: " + Join(to, ", ") + "\n" + "Subject: " + subject + "\n"
      + OptionalAddressLine("Cc: ", cc) + "\n" + OptionalAddressLine("Bcc: ", bcc) + "\n"
      + "\n" + message
  {
    JoinSix(AddressLine("To: ", to), "Subject: " + subject, OptionalAddressLine("Cc: ", cc),
            OptionalAddressLine("Bcc: ", bcc), "", message, [LineFeed]);
  }

  /** The text starts with `To: ` and always ends with a blank line followed
      by the message verbatim. */
  lemma EmailFrame(message: string, to: seq<string>, subject: string,
                   cc: Option<seq<string>>, bcc: Option<seq<string>>)
    ensures var email := EmailText(message, to, subject, cc, bcc);
      && |email| >= |message| + 2
      && email[..4] == "To: "
      && email[|email| - |message| - 2..] == "\n\n" + message
  {
    EmailLayout(message, to, subject, cc, bcc);
  }

  /** No slot is ever dropped: an absent list gives an empty line, a present
      one its prefix even when the list is empty. */
  lemma AddressSlots(addresses: Option<seq<string>>)
    ensures OptionalAddressLine("Cc: ", addresses) == "" <==> addresses.None?
    ensures OptionalAddressLine("Bcc: ", addresses) == "" <==> addresses.None?
    ensures addresses == Some([]) ==>
      OptionalAddressLine("Cc: ", addresses) == "Cc: " && OptionalAddressLine("Bcc: ", addresses) == "Bcc: "
  {
  }

  /** No element of a list of texts holds a line feed. */
  predicate NoLineFeeds(xs: seq<string>) {
    forall i :: 0 <= i < |xs| ==> LineFeed !in xs[i]
  }

  predicate OptionNoLineFeeds(xs: Option<seq<string>>) {
    xs.Some? ==> NoLineFeeds(xs.value)
  }

  /** The lines of a text, split at line feeds. */
  function Lines(text: string): seq<string> {
    Split(text, LineFeed)
  }

  /** Index of the first empty line: where the header section ends (section
      2.1 of RFC 5322), or the number of lines when there is none. */
  function HeaderEnd(lines: seq<string>): (k: nat)
    ensures k <= |lines|
    ensures forall i :: 0 <= i < k ==> lines[i] != ""
    ensures k < |lines| ==> lines[k] == ""
    decreases |lines|
  {
    if |lines| == 0 || lines[0] == "" then 0 else 1 + HeaderEnd(lines[1..])
  }

  /** The header lines of a message text: those before the first empty line. */
  function HeaderSection(text: string): seq<string> {
    var lines := Lines(text);
    lines[..HeaderEnd(lines)]
  }

  /** The body of a message text: everything after the first empty line. */
  function BodySection(text: string): string {
    var lines := Lines(text);
    var k := HeaderEnd(lines);
    if k < |lines| then Join(lines[k + 1..], [LineFeed]) else ""
  }

  lemma AddressLineFree(prefix: string, addresses: seq<string>)
    requires LineFeed !in prefix && NoLineFeeds(addresses)
    ensures LineFeed !in AddressLine(prefix, addresses)
  {
    JoinFreeOf(addresses, ", ", LineFeed);
  }

  /** When no field holds a line feed, the lines of a joined text are its
      separator-free leading lines followed by the lines of the last one. */
  lemma LinesOfJoin(lines: seq<string>, last: string)
    requires NoLineFeeds(lines)
    ensures Lines(Join(lines + [last], [LineFeed])) == lines + Lines(last)
  {
    SplitJoinPrefix(lines, last, LineFeed);
  }

  /** Header and body of a text whose lines are non-empty header lines, an
      empty line, some further lines and then the lines of `message`. */
  lemma {:induction false} Sections(text: string, headers: seq<string>, middle: seq<string>, message: string)
    requires forall i :: 0 <= i < |headers| ==> headers[i] != ""
    requires Lines(text) == headers + [""] + middle + Lines(message)
    ensures HeaderSection(text) == headers
    ensures BodySection(text) == if |middle| == 0 then message else Join(middle, [LineFeed]) + "\n" + message
  {
    var lines := Lines(text);
    HeaderEndOfLead(headers, middle + Lines(message));
    assert lines == headers + [""] + (middle + Lines(message));
    assert lines[..|headers|] == headers;
    assert lines[|headers| + 1..] == middle + Lines(message);
    JoinSplit(message, LineFeed);
    if |middle| > 0 {
      JoinAppend(middle, Lines(message), [LineFeed]);
    }
  }

  /** The lines of the draft text: the five leading lines, then the lines
      of the message. */
  lemma DraftLines(message: string, to: seq<string>, subject: string,
                   cc: Option<seq<string>>, bcc: Option<seq<string>>)
    requires NoLineFeeds(to) && LineFeed !in subject
    requires OptionNoLineFeeds(cc) && OptionNoLineFeeds(bcc)
    ensures Lines(EmailText(message, to, subject, cc, bcc)) == EmailLines(message, to, subject, cc, bcc)[..5] + Lines(message)
  {
    var all := EmailLines(message, to, subject, cc, bcc);
    var lead := all[..5];
    assert all == lead + [message];
    AddressLineFree("To: ", to);
    if cc.Some? { AddressLineFree("Cc: ", cc.value); }
    if bcc.Some? { AddressLineFree("Bcc: ", bcc.value); }
    assert NoLineFeeds(lead);
    LinesOfJoin(lead, message);
  }

  /** Where the header section of the draft text ends. When `cc` is absent
      its empty slot is the first empty line, so the header section is just
      To and Subject and any Bcc line is the first line of the body. When
      `cc` is present but `bcc` absent, the body starts with an extra empty
      line. Only with both present is the body the message alone. */
  lemma DraftSections(message: string, to: seq<string>, subject: string,
                      cc: Option<seq<string>>, bcc: Option<seq<string>>)
    requires NoLineFeeds(to) && LineFeed !in subject
    requires OptionNoLineFeeds(cc) && OptionNoLineFeeds(bcc)
    ensures var email := EmailText(message, to, subject, cc, bcc);
      var toLine, subjectLine := AddressLine("To: ", to), "Subject: " + subject;
      && HeaderSection(email) ==
           (if cc.None? then [toLine, subjectLine]
            else if bcc.None? then [toLine, subjectLine, AddressLine("Cc: ", cc.value)]
            else [toLine, subjectLine, AddressLine("Cc: ", cc.value), AddressLine("Bcc: ", bcc.value)])
      && BodySection(email) ==
           (if cc.None? then OptionalAddressLine("Bcc: ", bcc) + "\n\n" + message
            else if bcc.None? then "\n" + message
            else message)
  {
    var email := EmailText(message, to, subject, cc, bcc);
    var lead := EmailLines(message, to, subject, cc, bcc)[..5];
    DraftLines(message, to, subject, cc, bcc);
    if cc.None? {
      assert Lines(email) == lead[..2] + [""] + [lead[3], ""] + Lines(message);
      Sections(email, lead[..2], [lead[3], ""], message);
      assert Join([lead[3], ""], [LineFeed]) == lead[3] + "\n";
    } else if bcc.None? {
      assert Lines(email) == lead[..3] + [""] + [""] + Lines(message);
      Sections(email, lead[..3], [""], message);
    } else {
      assert Lines(email) == lead[..4] + [""] + [] + Lines(message);
      Sections(email, lead[..4], [], message);
    }
  }

  /** With no Cc list, a Bcc line ends up in the body: the header section
      holds no Bcc line and the body starts with it. */
  lemma BccLandsInBodyWithoutCc(message: string, to: seq<string>, subject: string, bcc: seq<string>)
    requires NoLineFeeds(to) && LineFeed !in subject && NoLineFeeds(bcc)
    ensures var email := EmailText(message, to, subject, None, Some(bcc));
      var bccLine := AddressLine("Bcc: ", bcc);
      && bccLine !in HeaderSection(email)
      && |bccLine| <= |BodySection(email)|
      && BodySection(email)[..|bccLine|] == bccLine
  {
    DraftSections(message, to, subject, None, Some(bcc));
    var bccLine := AddressLine("Bcc: ", bcc);
    assert bccLine[0] == 'B';
    assert AddressLine("To: ", to)[0] == 'T';
    assert ("Subject: " + subject)[0] == 'S';
  }

  /** The evidently intended layout: absent lists add no line at all, so
      the empty line comes right after the last header present. */
  function CorrectedEmailLines(message: string, to: seq<string>, subject: string,
                               cc: Option<seq<string>>, bcc: Option<seq<string>>): seq<string>
  {
    [AddressLine("To: ", to), "Subject: " + subject]
    + (if cc.Some? then [AddressLine("Cc: ", cc.value)] else [])
    + (if bcc.Some? then [AddressLine("Bcc: ", bcc.value)] else [])
    + ["", message]
  }

  function CorrectedEmailText(message: string, to: seq<string>, subject: string,
                              cc: Option<seq<string>>, bcc: Option<seq<string>>): string
  {
    Join(CorrectedEmailLines(message, to, subject, cc, bcc), [LineFeed])
  }

  /** In the corrected layout the header section is exactly the headers
      present, Cc and Bcc included, and the body is exactly the message. */
  lemma CorrectedDraftSections(message: string, to: seq<string>, subject: string,
                               cc: Option<seq<string>>, bcc: Option<seq<string>>)
    requires NoLineFeeds(to) && LineFeed !in subject
    requires OptionNoLineFeeds(cc) && OptionNoLineFeeds(bcc)
    ensures var email := CorrectedEmailText(message, to, subject, cc, bcc);
      var headers := [AddressLine("To: ", to), "Subject: " + subject]
        + (if cc.Some? then [AddressLine("Cc: ", cc.value)] else [])
        + (if bcc.Some? then [AddressLine("Bcc: ", bcc.value)] else []);
      && HeaderSection(email) == headers
      && BodySection(email) == message
  {
    var headers := [AddressLine("To: ", to), "Subject: " + subject]
      + (if cc.Some? then [AddressLine("Cc: ", cc.value)] else [])
      + (if bcc.Some? then [AddressLine("Bcc: ", bcc.value)] else []);
    var lead := headers + [""];
    assert CorrectedEmailLines(message, to, subject, cc, bcc) == lead + [message];
    AddressLineFree("To: ", to);
    if cc.Some? { AddressLineFree("Cc: ", cc.value); }
    if bcc.Some? { AddressLineFree("Bcc: ", bcc.value); }
    assert NoLineFeeds(lead);
    LinesOfJoin(lead, message);
    Sections(CorrectedEmailText(message, to, subject, cc, bcc), headers, [], message);
  }

  /** Non-empty lines followed by an empty one: the header ends there. */
  lemma {:induction false} HeaderEndOfLead(headers: seq<string>, rest: seq<string>)
    requires forall i :: 0 <= i < |headers| ==> headers[i] != ""
    ensures HeaderEnd(headers + [""] + rest) == |headers|
    decreases |headers|
  {
    var lines := headers + [""] + rest;
    if |headers| > 0 {
      assert lines[1..] == headers[1..] + [""] + rest;
      HeaderEndOfLead(headers[1..], rest);
    }
  }
}
