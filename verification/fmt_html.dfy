/** The HTML exporter of a conversation: a fixed preamble, one `<section>`
    fragment per message in input order, and a fixed closing. The output
    stream is modelled by the string it ends up holding. */
module HtmlFormat {
  import opened Signal
  import Text
  import Decimal

  /** The two time formatters the renderer calls but does not define:
      `html` is `htmlFormatTime` (used for a message's own send time) and
      `textShort` is `textShortFormatTime` (used for a quoted message). Both
      depend on the local time zone, so they stay parameters. */
  datatype TimeFormat = TimeFormat(html: Int64 -> string, textShort: Int64 -> string)

  /** The document preamble, character for character, line by line. */
  const Head: string :=
    "\n"
    + "<!DOCTYPE html>\n"
    + "<html lang=\"en\">\n"
    + "\n"
    + "<head>\n"
    + "    <meta charset=\"UTF-8\">\n"
    + "    <meta name=\"viewport\" content=\"width=device-width, initial-scale=1.0\">\n"
    + "    <title>Signul</title>\n"
    + "    <link rel=\"stylesheet\" href=\"https://cdn.jsdelivr.net/npm/water.css@2/out/water.css\">\n"
    + "    <style>\n"
    + "        section {\n"
    + "            margin-bottom: 1rem;\n"
    + "            width: 66%;\n"
    + "            background-color: #3b3b3bff;\n"
    + "            padding: 0.5rem;\n"
    + "            border-radius: 5px;;\n"
    + "        }\n"
    + "\n"
    + "        .you {\n"
    + "            margin-left: 33%;\n"
    + "            background-color: #195feeff;\n"
    + "        }\n"
    + "\t\tspan {\n"
    + "        \tfont-size: 90%;\n"
    + "            display: flex;\n"
    + "            justify-content: end;\n"
    + "\t\t}\n"
    + "    </style>\n"
    + "</head>\n"
    + "\n"
    + "<body>\n"
    + "    <header>\n"
    + "        <h1>Conversation</h1>\n"
    + "    </header>\n"
    + "\n"
    + "    <main>\n"

  /** The document closing. */
  const Tail: string := "\n    </main>\n</body>\n</html>"

  /** The opening of a message container, whichever its class. */
  const SectionOpen: string := "<section"

  /** The two type labels whose messages carry ordinary text content; any
      other label names an event that is only announced. */
  predicate IsPlain(kind: string) {
    kind == "incoming" || kind == "outgoing"
  }

  /** The opening of the message's container: the "you" section for the
      user's own messages, otherwise a plain section led by the sender's
      display name. Nothing is escaped. */
  function Container(m: Message): (r: string)
    ensures |r| > |SectionOpen| && Text.StartsWith(r, SectionOpen)
    ensures m.outgoing ==> r == "<section class=\"you\">"
    ensures !m.outgoing ==> Text.StartsWith(r, "<section>") && Text.EndsWith(r, ":<br>")
    ensures m.outgoing <==> r[|SectionOpen|] == ' '
    ensures !m.outgoing ==> |r| == 14 + |m.sender| && r[9..|r| - 5] == m.sender
  {
    if m.outgoing then "<section class=\"you\">"
    else
      var r := "<section>" + m.sender + ":<br>";
      assert r[..|SectionOpen|] == SectionOpen;
      assert r[9..|r| - 5] == m.sender;
      r
  }

  /** The only content of a message whose type is not a plain one. */
  function TypeNotice(kind: string): (r: string)
    ensures Text.StartsWith(r, " [") && Text.EndsWith(r, " message]")
    ensures |r| == |kind| + 11 && r[2..|r| - 9] == kind
  {
    var r := " [" + kind + " message]";
    assert r[..2] == " [";
    assert r[|r| - 9..] == " message]";
    assert r[2..|r| - 9] == kind;
    r
  }

  /** The annotation for a quoted message. */
  function QuoteNote(q: Quote, tf: TimeFormat): (r: string)
    ensures Text.StartsWith(r, "reply to " + q.author)
    ensures Text.EndsWith(r, " on " + tf.textShort(q.id))
    ensures |r| == 13 + |q.author| + |tf.textShort(q.id)|
  {
    var lead := "reply to " + q.author;
    var trail := " on " + tf.textShort(q.id);
    var r := lead + trail;
    assert r[..|lead|] == lead;
    assert r[|r| - |trail|..] == trail;
    assert "reply to " + q.author + " on " + tf.textShort(q.id) == r by {
      Text.AppendAssoc(lead, " on ", tf.textShort(q.id));
    }
    r
  }

  /** The annotation for `n` attachments: the count in decimal, then the
      word, with an "s" when there is more than one. */
  function AttachmentNote(n: nat): (r: string)
    requires n > 0
    ensures n == 1 ==> r == "1 attachment"
    ensures n > 1 ==>
              && |r| > 12 && r[|r| - 12..] == " attachments"
              && Decimal.IsCanonical(r[..|r| - 12]) && Decimal.Parse(r[..|r| - 12]) == n
    ensures n > 1 <==> r[|r| - 1] == 's'
  {
    var digits := Decimal.FromNat(n);
    var r := digits + " attachment" + (if n > 1 then "s" else "");
    assert n > 1 ==> r[..|r| - 12] == digits;
    r
  }

  /** The annotation list of a plain message: the quote note, "edited" and
      the attachment note, each only when it applies, always in this order. */
  function Details(m: Message, tf: TimeFormat): (r: seq<string>)
    ensures |r| == (if m.quote.Some? then 1 else 0) + (if m.edits > 0 then 1 else 0)
                   + (if m.attachments > 0 then 1 else 0)
    ensures m.quote.Some? ==> r[0] == QuoteNote(m.quote.value, tf)
    ensures m.edits > 0 ==> r[if m.quote.Some? then 1 else 0] == "edited"
    ensures m.attachments > 0 ==> r[|r| - 1] == AttachmentNote(m.attachments)
  {
    (if m.quote.Some? then [QuoteNote(m.quote.value, tf)] else [])
    + (if m.edits > 0 then ["edited"] else [])
    + (if m.attachments > 0 then [AttachmentNote(m.attachments)] else [])
  }

  /** The bracketed, comma-separated annotation group; nothing at all when
      there are no annotations. */
  function AnnotationGroup(details: seq<string>): (r: string)
    ensures r != "" <==> |details| > 0
    ensures |details| > 0 ==> Text.StartsWith(r, " [") && Text.EndsWith(r, "]")
    ensures |details| > 0 ==> |r| >= 3 && r[2..|r| - 1] == Text.Join(details, ", ")
  {
    if |details| > 0 then " [" + Text.Join(details, ", ") + "]" else ""
  }

  /** The body, verbatim after one space, when it is not empty. */
  function BodyText(body: string): (r: string)
    ensures r == "" <==> body == ""
    ensures body != "" ==> r[0] == ' ' && r[1..] == body
  {
    if body != "" then " " + body else ""
  }

  /** What follows the container: exactly one of the type notice and the
      annotation group with the body. */
  function Content(m: Message, tf: TimeFormat): (r: string)
    ensures !IsPlain(m.kind) ==>
              && Text.StartsWith(r, " [") && Text.EndsWith(r, " message]")
              && |r| == |m.kind| + 11 && r[2..|r| - 9] == m.kind
    ensures IsPlain(m.kind) ==>
              (r == "" <==> m.quote.None? && m.edits == 0 && m.attachments == 0 && m.body == "")
    ensures IsPlain(m.kind) && m.body != "" ==> Text.EndsWith(r, " " + m.body)
  {
    if !IsPlain(m.kind) then TypeNotice(m.kind)
    else
      var group := AnnotationGroup(Details(m, tf));
      var text := BodyText(m.body);
      assert text == "" || text == " " + m.body;
      assert (group + text)[|group + text| - |text|..] == text;
      group + text
  }

  /** The send-time span that closes every container, then a line break. */
  function Footer(m: Message, tf: TimeFormat): (r: string)
    ensures Text.StartsWith(r, "<span>" + tf.html(m.sent))
    ensures Text.EndsWith(r, "</span></section>\n")
    ensures |r| == |tf.html(m.sent)| + 24
  {
    var lead := "<span>" + tf.html(m.sent);
    var r := lead + "</span></section>" + "\n";
    assert r[..|lead|] == lead;
    assert r[|r| - 18..] == "</span></section>\n";
    r
  }

  /** Everything `htmlWriteMessage` writes for one message: it opens the
      "you" container or the sender's labelled one, and whatever the branch
      it closes with the send time, the end of the section and a line
      break. */
  function Fragment(m: Message, tf: TimeFormat): (r: string)
    ensures m.outgoing ==> Text.StartsWith(r, "<section class=\"you\">")
    ensures !m.outgoing ==> Text.StartsWith(r, "<section>" + m.sender + ":<br>")
    ensures Text.EndsWith(r, "<span>" + tf.html(m.sent) + "</span></section>\n")
  {
    var lead := Container(m);
    var footer := Footer(m, tf);
    Text.Framed(lead, Content(m, tf), footer);
    assert !m.outgoing ==> lead == "<section>" + m.sender + ":<br>";
    assert footer == "<span>" + tf.html(m.sent) + "</span></section>\n";
    lead + Content(m, tf) + footer
  }

  /** `Fragment` as a function of the message alone. */
  function FragmentOf(tf: TimeFormat): (f: Message -> string) {
    m => Fragment(m, tf)
  }

  /** The fragments of all messages, in input order. */
  function Body(msgs: seq<Message>, tf: TimeFormat): (r: string)
    ensures r == "" <==> |msgs| == 0
    ensures |msgs| > 0 ==> Text.StartsWith(r, Fragment(msgs[0], tf))
  {
    var r := Text.ConcatMap(msgs, FragmentOf(tf));
    assert |msgs| > 0 ==> r == Fragment(msgs[0], tf) + Text.ConcatMap(msgs[1..], FragmentOf(tf));
    r
  }

  /** Everything `htmlWriteMessages` writes: the preamble once, the messages,
      the closing once. */
  function Render(msgs: seq<Message>, tf: TimeFormat): (r: string)
    ensures Text.StartsWith(r, Head) && Text.EndsWith(r, Tail)
    ensures |msgs| == 0 ==> r == Head + Tail
  {
    Text.Framed(Head, Body(msgs, tf), Tail);
    Head + Body(msgs, tf) + Tail
  }

  /** The fragments of a split list are the fragments of its halves, one
      after the other. */
  lemma BodyAppend(a: seq<Message>, b: seq<Message>, tf: TimeFormat)
    ensures Body(a + b, tf) == Body(a, tf) + Body(b, tf)
  {
    Text.ConcatMapAppend(a, b, FragmentOf(tf));
  }

  /** The fragments of a non-empty list: the first message's, then the
      rest's. */
  lemma BodyCons(msgs: seq<Message>, tf: TimeFormat)
    requires |msgs| > 0
    ensures Body(msgs, tf) == Fragment(msgs[0], tf) + Body(msgs[1..], tf)
  {
  }

  /** Extending a prefix of the messages by one appends that message's
      fragment. */
  lemma BodyPrefixStep(msgs: seq<Message>, i: nat, tf: TimeFormat)
    requires i < |msgs|
    ensures Body(msgs[..i + 1], tf) == Body(msgs[..i], tf) + Fragment(msgs[i], tf)
  {
    Text.ConcatMapPrefixStep(msgs, i, FragmentOf(tf));
  }

  /** The message loop of the writer: every fragment appended in turn to
      what is already written, with no early exit. */
  method AppendFragments(written: string, msgs: seq<Message>, tf: TimeFormat) returns (out: string)
    ensures out == written + Body(msgs, tf)
  {
    out := written;
    var i := 0;
    assert msgs[..0] == [];
    while i < |msgs|
      invariant 0 <= i <= |msgs|
      invariant out == written + Body(msgs[..i], tf)
    {
      BodyPrefixStep(msgs, i, tf);
      Text.AppendAssoc(written, Body(msgs[..i], tf), Fragment(msgs[i], tf));
      out := out + Fragment(msgs[i], tf);
      i := i + 1;
    }
    assert msgs[..i] == msgs;
  }

  /** The writer as the source runs it: the preamble, the messages, the
      closing, each written once and in this order. */
  method WriteMessages(msgs: seq<Message>, tf: TimeFormat) returns (out: string)
    ensures out == Render(msgs, tf)
  {
    out := Head;
    out := AppendFragments(out, msgs, tf);
    out := out + Tail;
  }
}
