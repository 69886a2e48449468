/** What the HTML exporter promises about the document it writes. */
module HtmlFormatProperties {
  import opened Signal
  import opened HtmlFormat
  import Text
  import Decimal

  /** The fragments of a message list are those of the messages before
      position `i`, the fragment of message `i`, and those of the messages
      after it. */
  lemma BodyMessageAt(msgs: seq<Message>, i: nat, tf: TimeFormat)
    requires i < |msgs|
    ensures Body(msgs, tf)
            == Body(msgs[..i], tf) + Fragment(msgs[i], tf) + Body(msgs[i + 1..], tf)
  {
    assert msgs == msgs[..i] + msgs[i..];
    BodyAppend(msgs[..i], msgs[i..], tf);
    BodyCons(msgs[i..], tf);
    assert msgs[i..][1..] == msgs[i + 1..];
    Text.AppendAssoc(Body(msgs[..i], tf), Fragment(msgs[i], tf), Body(msgs[i + 1..], tf));
  }

  /** The document is the preamble, the fragments of the messages before
      position `i`, the fragment of message `i`, the fragments of the
      messages after it, and the closing: every message has its own fragment,
      in input order. */
  lemma RenderMessageAt(msgs: seq<Message>, i: nat, tf: TimeFormat)
    requires i < |msgs|
    ensures Render(msgs, tf)
            == Head + (Body(msgs[..i], tf) + Fragment(msgs[i], tf) + Body(msgs[i + 1..], tf)) + Tail
  {
    BodyMessageAt(msgs, i, tf);
  }

  /** The user's own messages carry no sender label: renaming the sender
      leaves the fragment unchanged. */
  lemma OutgoingIgnoresSender(m: Message, tf: TimeFormat, otherName: string)
    requires m.outgoing
    ensures Fragment(m.(sender := otherName), tf) == Fragment(m, tf)
  {
    var m' := m.(sender := otherName);
    assert Container(m') == Container(m);
    assert Content(m', tf) == Content(m, tf) by {
      assert Details(m', tf) == Details(m, tf);
    }
    assert Footer(m', tf) == Footer(m, tf);
  }

  /** A message whose type is neither "incoming" nor "outgoing" shows only
      its type, and its body, quote, edits and attachments make no
      difference to its fragment. */
  lemma TypeNoticeOnly(m: Message, m': Message, tf: TimeFormat)
    requires !IsPlain(m.kind)
    requires m'.outgoing == m.outgoing && m'.sender == m.sender
    requires m'.kind == m.kind && m'.sent == m.sent
    ensures Content(m, tf) == " [" + m.kind + " message]"
    ensures Fragment(m', tf) == Fragment(m, tf)
  {
  }

  /** "edited" is among the annotations exactly when the message has edits:
      neither the quote note nor the attachment note can be mistaken for it. */
  lemma EditedIffEdits(m: Message, tf: TimeFormat)
    ensures "edited" in Details(m, tf) <==> m.edits > 0
  {
    var d := Details(m, tf);
    if m.quote.Some? {
      assert d[0][0] == 'r';
    }
    if m.attachments > 0 {
      var note := AttachmentNote(m.attachments);
      assert note[|note| - 1] == 's' || note[|note| - 2..] == "nt";
      assert note != "edited";
    }
    if m.edits == 0 {
      forall i | 0 <= i < |d|
        ensures d[i] != "edited"
      {
      }
    } else {
      assert d[if m.quote.Some? then 1 else 0] == "edited";
    }
  }

  /** A plain message without quote, edits or attachments shows no bracketed
      group, even when it has a body. */
  lemma PlainWithoutAnnotations(m: Message, tf: TimeFormat)
    requires IsPlain(m.kind)
    requires m.quote.None? && m.edits == 0 && m.attachments == 0
    ensures Content(m, tf) == (if m.body == "" then "" else " " + m.body)
  {
    assert Details(m, tf) == [];
  }

  /** The body of a plain message is appended, after one space, to the
      content the message would have without a body: the annotations do not
      depend on the body and the body does not depend on the annotations. */
  lemma BodyAfterAnnotations(m: Message, tf: TimeFormat)
    requires IsPlain(m.kind)
    ensures Content(m, tf) == Content(m.(body := ""), tf) + (if m.body == "" then "" else " " + m.body)
    ensures Content(m.(body := ""), tf) == "" <==> m.quote.None? && m.edits == 0 && m.attachments == 0
  {
    assert Details(m.(body := ""), tf) == Details(m, tf);
  }

  /** The annotation list of the reply used in the example below. */
  lemma ExampleDetails(m: Message, tf: TimeFormat)
    requires m.quote == Some(Quote("X", 1704200640000))
    requires m.edits == 1 && m.attachments == 2
    ensures Details(m, tf) == ["reply to X on " + tf.textShort(1704200640000), "edited", "2 attachments"]
  {
    assert Decimal.FromNat(2) == "2";
    assert AttachmentNote(2) == "2 attachments";
    assert QuoteNote(m.quote.value, tf) == "reply to X on " + tf.textShort(1704200640000);
  }

  /** A single annotation, bracketed, with no separator. */
  lemma GroupOfOne(a: string)
    ensures AnnotationGroup([a]) == " [" + a + "]"
  {
    assert Text.Join([a], ", ") == a;
  }

  /** Two annotations, bracketed and separated by ", ". */
  lemma GroupOfTwo(a: string, b: string)
    ensures AnnotationGroup([a, b]) == " [" + a + ", " + b + "]"
  {
    assert [a, b][1..] == [b];
    assert Text.Join([a, b], ", ") == a + ", " + b;
    Text.AppendAssoc(" [", a + ", ", b);
    Text.AppendAssoc(" [", a, ", ");
  }

  /** Three annotations, bracketed and separated by ", ". */
  lemma GroupOfThree(a: string, b: string, c: string)
    ensures AnnotationGroup([a, b, c]) == " [" + a + ", " + b + ", " + c + "]"
  {
    Text.JoinThree(a, b, c, ", ");
    Text.AppendAssoc(" [", a + ", " + b + ", ", c);
    Text.AppendAssoc(" [", a + ", " + b, ", ");
    Text.AppendAssoc(" [", a + ", ", b);
    Text.AppendAssoc(" [", a, ", ");
  }

  /** A reply with one edit and two attachments lists its annotations in the
      fixed order: quote, then edit, then attachment count. */
  lemma AnnotationOrderExample(m: Message, tf: TimeFormat)
    requires IsPlain(m.kind)
    requires m.quote == Some(Quote("X", 1704200640000))
    requires m.edits == 1 && m.attachments == 2
    ensures AnnotationGroup(Details(m, tf))
            == " [reply to X on " + tf.textShort(1704200640000) + ", edited, 2 attachments]"
    ensures Content(m, tf)
            == " [reply to X on " + tf.textShort(1704200640000) + ", edited, 2 attachments]" + BodyText(m.body)
  {
    var short := tf.textShort(1704200640000);
    ExampleDetails(m, tf);
    GroupOfThree("reply to X on " + short, "edited", "2 attachments");
    ExampleGroupText(short);
  }

  /** The text of that example's group, reassociated into one literal
      around the formatted time. */
  lemma ExampleGroupText(short: string)
    ensures " [" + ("reply to X on " + short) + ", " + "edited" + ", " + "2 attachments" + "]"
            == " [reply to X on " + short + ", edited, 2 attachments]"
  {
    var p := " [" + ("reply to X on " + short);
    assert p == " [reply to X on " + short by {
      Text.AppendAssoc(" [", "reply to X on ", short);
      assert " [" + "reply to X on " == " [reply to X on ";
    }
    Text.AppendAssoc(p + ", " + "edited" + ", ", "2 attachments", "]");
    Text.AppendAssoc(p + ", " + "edited", ", ", "2 attachments" + "]");
    Text.AppendAssoc(p + ", ", "edited", ", " + ("2 attachments" + "]"));
    Text.AppendAssoc(p, ", ", "edited" + (", " + ("2 attachments" + "]")));
    assert ", " + ("edited" + (", " + ("2 attachments" + "]"))) == ", edited, 2 attachments]";
  }

  /** No user-supplied text the fragment shows, and neither formatted time,
      contains '<': the condition under which the section count below holds,
      since nothing is escaped. Fields the message's branch does not show are
      unconstrained. */
  predicate Inert(m: Message, tf: TimeFormat) {
    && '<' !in tf.html(m.sent)
    && (!m.outgoing ==> '<' !in m.sender)
    && (!IsPlain(m.kind) ==> '<' !in m.kind)
    && (IsPlain(m.kind) ==>
          && '<' !in m.body
          && (m.quote.Some? ==>
                && '<' !in m.quote.value.author
                && '<' !in tf.textShort(m.quote.value.id)))
  }

  lemma NoLtInNumeral(n: nat)
    ensures '<' !in Decimal.FromNat(n)
  {
    var s := Decimal.FromNat(n);
    forall i | 0 <= i < |s|
      ensures s[i] != '<'
    {
      assert Decimal.IsDigit(s[i]);
    }
  }

  lemma AttachmentNoteNoLt(n: nat)
    requires n > 0
    ensures '<' !in AttachmentNote(n)
  {
    NoLtInNumeral(n);
    assert AttachmentNote(n) == Decimal.FromNat(n) + " attachment" + (if n > 1 then "s" else "");
  }

  /** Annotations built from inert fields hold no '<'. */
  lemma DetailsNoLt(m: Message, tf: TimeFormat)
    requires Inert(m, tf) && IsPlain(m.kind)
    ensures forall i :: 0 <= i < |Details(m, tf)| ==> '<' !in Details(m, tf)[i]
  {
    if m.attachments > 0 {
      AttachmentNoteNoLt(m.attachments);
    }
  }

  /** Content built from inert fields holds no '<'. */
  lemma ContentNoLt(m: Message, tf: TimeFormat)
    requires Inert(m, tf)
    ensures '<' !in Content(m, tf)
  {
    if IsPlain(m.kind) {
      DetailsNoLt(m, tf);
      Text.JoinExcludes(Details(m, tf), ", ", '<');
    }
  }

  /** The closing span of a fragment opens no section, and starts none that
      runs into the text after it. */
  lemma FooterOccurrences(m: Message, tf: TimeFormat, rest: string)
    requires '<' !in tf.html(m.sent)
    ensures Text.Occurrences(SectionOpen, Footer(m, tf) + rest) == Text.Occurrences(SectionOpen, rest)
  {
    var t := tf.html(m.sent);
    var c1 := "<span>" + t;
    assert c1[1..] == "span>" + t;
    Text.OccurrencesMismatch(SectionOpen, "</section>\n", rest, 1);
    Text.OccurrencesMismatch(SectionOpen, "</span>", "</section>\n" + rest, 1);
    Text.OccurrencesMismatch(SectionOpen, c1, "</span>" + ("</section>\n" + rest), 2);
    assert "</span></section>" + "\n" == "</span>" + "</section>\n";
    Text.AppendAssoc(c1, "</span></section>", "\n");
    Text.AppendAssoc(c1, "</span>" + "</section>\n", rest);
    Text.AppendAssoc("</span>", "</section>\n", rest);
  }

  /** A container opens exactly one section, whatever text follows it. */
  lemma ContainerOccurrences(m: Message, rest: string)
    requires !m.outgoing ==> '<' !in m.sender
    ensures Text.Occurrences(SectionOpen, Container(m) + rest) == 1 + Text.Occurrences(SectionOpen, rest)
  {
    assert SectionOpen[1..] == "section";
    if m.outgoing {
      var attrs := " class=\"you\">";
      assert Container(m) == SectionOpen + attrs;
      Text.AppendAssoc(SectionOpen, attrs, rest);
      Text.OccurrencesSkipFree(SectionOpen, attrs, rest);
      Text.OccurrencesLead(SectionOpen, attrs + rest);
    } else {
      var name := m.sender;
      var br := "<br>" + rest;
      Text.OccurrencesMismatch(SectionOpen, "<br>", rest, 1);
      Text.OccurrencesSkipFree(SectionOpen, ":", br);
      Text.OccurrencesSkipFree(SectionOpen, name, ":" + br);
      Text.OccurrencesSkipFree(SectionOpen, ">", name + (":" + br));
      Text.OccurrencesLead(SectionOpen, ">" + (name + (":" + br)));
      assert "<section>" == SectionOpen + ">";
      assert ":<br>" == ":" + "<br>";
      Text.AppendAssoc(":", "<br>", rest);
      Text.AppendAssoc("<section>" + name, ":<br>", rest);
      Text.AppendAssoc("<section>", name, ":<br>" + rest);
      Text.AppendAssoc(SectionOpen, ">", name + (":<br>" + rest));
    }
  }

  /** The fragment of an inert message opens exactly one section. */
  lemma FragmentOccurrences(m: Message, tf: TimeFormat, rest: string)
    requires Inert(m, tf)
    ensures Text.Occurrences(SectionOpen, Fragment(m, tf) + rest) == 1 + Text.Occurrences(SectionOpen, rest)
  {
    var container := Container(m);
    var content := Content(m, tf);
    var footer := Footer(m, tf);
    ContentNoLt(m, tf);
    FooterOccurrences(m, tf, rest);
    Text.OccurrencesSkipFree(SectionOpen, content, footer + rest);
    ContainerOccurrences(m, content + (footer + rest));
    Text.AppendAssoc(container + content, footer, rest);
    Text.AppendAssoc(container, content, footer + rest);
  }

  /** The fragments of inert messages open one section per message. */
  lemma {:induction false} BodyOccurrences(msgs: seq<Message>, tf: TimeFormat, rest: string)
    requires forall i :: 0 <= i < |msgs| ==> Inert(msgs[i], tf)
    ensures Text.Occurrences(SectionOpen, Body(msgs, tf) + rest)
            == |msgs| + Text.Occurrences(SectionOpen, rest)
    decreases |msgs|
  {
    if |msgs| == 0 {
      assert Body(msgs, tf) + rest == rest;
    } else {
      BodyCons(msgs, tf);
      BodyOccurrences(msgs[1..], tf, rest);
      FragmentOccurrences(msgs[0], tf, Body(msgs[1..], tf) + rest);
      Text.AppendAssoc(Fragment(msgs[0], tf), Body(msgs[1..], tf), rest);
    }
  }

  /** Messages framed by any preamble and any closing that does not begin
      in the middle of a section opening: one opening per inert message,
      plus those of the frame. */
  lemma FramedOccurrences(msgs: seq<Message>, tf: TimeFormat, head: string, tail: string)
    requires forall i :: 0 <= i < |msgs| ==> Inert(msgs[i], tf)
    requires |tail| == 0 || tail[0] !in SectionOpen[1..]
    ensures Text.Occurrences(SectionOpen, head + Body(msgs, tf) + tail)
            == Text.Occurrences(SectionOpen, head) + |msgs| + Text.Occurrences(SectionOpen, tail)
  {
    var body := Body(msgs, tf);
    BodyOccurrences(msgs, tf, tail);
    BodyTailStart(msgs, tf, tail);
    Text.OccurrencesSplit(SectionOpen, head, body + tail);
    Text.AppendAssoc(head, body, tail);
  }

  /** The fragments, followed by a closing that cannot continue a
      `<section`, never begin with a character that could. */
  lemma BodyTailStart(msgs: seq<Message>, tf: TimeFormat, tail: string)
    requires |tail| == 0 || tail[0] !in SectionOpen[1..]
    ensures |Body(msgs, tf) + tail| == 0 || (Body(msgs, tf) + tail)[0] !in SectionOpen[1..]
  {
    var b := Body(msgs, tf);
    if |msgs| > 0 {
      BodyStart(msgs, tf);
      assert (b + tail)[0] == b[0];
      assert '<' !in SectionOpen[1..] by {
        assert SectionOpen[1..] == "section";
      }
    } else {
      assert b + tail == tail;
    }
  }

  /** The fragments of a non-empty list begin with the first container's '<'. */
  lemma BodyStart(msgs: seq<Message>, tf: TimeFormat)
    requires |msgs| > 0
    ensures |Body(msgs, tf)| > 0 && Body(msgs, tf)[0] == '<'
  {
    var f := Fragment(msgs[0], tf);
    FragmentStart(msgs[0], tf);
    assert Body(msgs, tf)[..|f|] == f;
    assert Body(msgs, tf)[0] == f[0];
  }

  /** Every fragment begins with the '<' of its container. */
  lemma FragmentStart(m: Message, tf: TimeFormat)
    ensures |Fragment(m, tf)| > 0 && Fragment(m, tf)[0] == '<'
  {
    var lead := Container(m);
    assert lead[0] == '<';
    assert Fragment(m, tf)[0] == lead[0];
  }

  /** Each inert message adds exactly one section opening to the document:
      the closing holds none, the preamble contributes its own fixed number
      whatever the messages are (for no messages the count is its alone), and
      no opening runs across a boundary between parts. */
  lemma RenderOccurrences(msgs: seq<Message>, tf: TimeFormat)
    requires forall i :: 0 <= i < |msgs| ==> Inert(msgs[i], tf)
    ensures Text.Occurrences(SectionOpen, Render(msgs, tf))
            == Text.Occurrences(SectionOpen, Head) + |msgs|
  {
    TailStart();
    TailOccurrences();
    ClosedOccurrences(msgs, tf, Head, Tail);
  }

  /** With a closing that holds no opening and cannot continue one, the
      count is the preamble's plus one per inert message. */
  lemma ClosedOccurrences(msgs: seq<Message>, tf: TimeFormat, head: string, tail: string)
    requires forall i :: 0 <= i < |msgs| ==> Inert(msgs[i], tf)
    requires |tail| == 0 || tail[0] !in SectionOpen[1..]
    requires Text.Occurrences(SectionOpen, tail) == 0
    ensures Text.Occurrences(SectionOpen, head + Body(msgs, tf) + tail)
            == Text.Occurrences(SectionOpen, head) + |msgs|
  {
    FramedOccurrences(msgs, tf, head, tail);
  }

  /** The closing starts with a line break, which cannot continue a section
      opening. */
  lemma TailStart()
    ensures |Tail| > 0 && Tail[0] !in SectionOpen[1..]
  {
    assert SectionOpen[1..] == "section";
    assert Tail[0] == '\n';
  }

  /** The closing opens no section: each of its tags starts "</". */
  lemma TailOccurrences()
    ensures Text.Occurrences(SectionOpen, Tail) == 0
  {
    assert Tail == "\n    " + ("</main>\n" + ("</body>\n" + "</html>"));
    ClosingTags("\n    ", "</main>\n", "</body>\n", "</html>");
  }

  /** Text free of '<' followed by three chunks that each begin with "</" and
      hold no other '<' contains no section opening. */
  lemma ClosingTags(pre: string, t1: string, t2: string, t3: string)
    requires '<' !in pre
    requires |t1| > 1 && t1[1] == '/' && '<' !in t1[1..]
    requires |t2| > 1 && t2[1] == '/' && '<' !in t2[1..]
    requires |t3| > 1 && t3[1] == '/' && '<' !in t3[1..]
    ensures Text.Occurrences(SectionOpen, pre + (t1 + (t2 + t3))) == 0
  {
    assert SectionOpen[0] == '<' && SectionOpen[1] == 's';
    assert t3 + "" == t3;
    Text.OccurrencesMismatch(SectionOpen, t3, "", 1);
    Text.OccurrencesMismatch(SectionOpen, t2, t3, 1);
    Text.OccurrencesMismatch(SectionOpen, t1, t2 + t3, 1);
    Text.OccurrencesSkipFree(SectionOpen, pre, t1 + (t2 + t3));
  }

  /** Nothing is escaped: a body holding "<section>" makes a single message
      open two sections. */
  lemma UnescapedBodyOpensSection(m: Message, tf: TimeFormat)
    requires m.outgoing && IsPlain(m.kind)
    requires m.body == "<section>" && m.quote.None? && m.edits == 0 && m.attachments == 0
    requires '<' !in tf.html(m.sent)
    ensures Text.Occurrences(SectionOpen, Fragment(m, tf)) == 2
  {
    var footer := Footer(m, tf);
    assert Details(m, tf) == [];
    assert Content(m, tf) == " " + (SectionOpen + ">");
    assert SectionOpen[1..] == "section";
    FooterOccurrences(m, tf, "");
    assert footer + "" == footer;
    Text.OccurrencesSkipFree(SectionOpen, ">", footer);
    Text.OccurrencesLead(SectionOpen, ">" + footer);
    Text.OccurrencesSkipFree(SectionOpen, " ", SectionOpen + (">" + footer));
    ContainerOccurrences(m, " " + (SectionOpen + (">" + footer)));
    Text.AppendAssoc(SectionOpen, ">", footer);
    Text.AppendAssoc(" ", SectionOpen + ">", footer);
    Text.AppendAssoc(Container(m), Content(m, tf), footer);
  }

}
