# HTML conversation export, modelled in Dafny

This project models the HTML writer of the sigtop message exporter, `fmt_html.go`.
The writer turns an ordered list of already-decoded messages into one HTML document:

- a fixed preamble (doctype, head with stylesheet, header, opening `<main>`);
- then one `<section>` fragment per message, in input order;
- then a fixed closing.

Each fragment is built in three parts:

- a container: the "you" section for the user's own messages, or a plain section led by the sender's display name;
- exactly one content branch: a bracketed type notice for non-text messages, or for plain messages an annotation group (quote, edited, attachment count) followed by the body;
- a footer: the formatted send time in a `<span>`, the end of the section, and a line break.

The model is written as pure functions over immutable data:

- `Signal` (`message.dfy`): the message record as the writer reads it.
- `HtmlFormat` (`fmt_html.dfy`): the writer itself.
  - `Render` is the document, written as preamble + fragments + closing.
  - `WriteMessages` and `AppendFragments` are the same writer as a sequence of appends to the output stream, with no early exit.
- `HtmlFormatProperties` (`fmt_html_properties.dfy`): what the document promises.
- `Decimal` (`decimal.dfy`): the `%d` rendering of the attachment count, with the parser that inverts it.
- `Text` (`text.dfy`): `strings.Join`, concatenation over a list, and a count of pattern occurrences.

External collaborators are parameters or plain fields:

- The two time formatters, `htmlFormatTime` and `textShortFormatTime`, are the function-valued fields of a `TimeFormat` parameter.
- `DisplayName()` results are plain strings.
- `IsOutgoing()` is a flag.
- The edit and attachment lists are kept only as their lengths, which is all the writer reads from them.

Nothing is escaped: display names, type labels and bodies are inserted into the markup verbatim, as the code does.
Two consequences follow:

- The "one `<section` opening per message" count is proved under a sufficient condition, `Inert`: no shown text contains `<`. The condition is not necessary: some text with a `<` still leaves the count intact. Shown text that contains `<section` breaks it.
- `UnescapedBodyOpensSection` exhibits a single message whose body opens a second section.

## Model

| member | source | states |
|---|---|---|
| `HtmlFormat.Render` | fmt_html.go:70-75 | the document starts with the preamble and ends with the closing; with no messages it is exactly preamble followed by closing |
| `HtmlFormat.WriteMessages` | fmt_html.go:27-77 | writing the preamble, every message's fragment in turn, then the closing, with no early exit, yields exactly `Render` of the messages |
| `HtmlFormat.AppendFragments` | fmt_html.go:72-74 | the message loop appends the fragments of all messages, in order, to what was already written |
| `HtmlFormat.BodyAppend` | fmt_html.go:72-74 | the fragments of a concatenated message list are the fragments of the first list followed by those of the second |
| `HtmlFormatProperties.BodyMessageAt` | fmt_html.go:72-74 | for every position i, the fragments are those before i, then message i's own fragment, then those after i |
| `HtmlFormatProperties.RenderMessageAt` | fmt_html.go:70-75 | the document is preamble, the fragments before message i, message i's fragment, the fragments after it, and the closing: one fragment per message in input order |
| `HtmlFormat.Body` | fmt_html.go:72-74 | the fragments of the messages are empty exactly when there are no messages, and otherwise begin with the first message's fragment |
| `HtmlFormat.Container` | fmt_html.go:80-84 | an outgoing message's container is exactly `<section class="you">`; any other starts with `<section>`, ends with `:<br>` and holds the sender's display name, unchanged, between them; the character after `<section` is a space exactly for outgoing messages |
| `HtmlFormat.Fragment` | fmt_html.go:79-113 | an outgoing message's fragment begins with `<section class="you">`; any other begins with `<section>`, the sender's display name, `:<br>`; in every branch the fragment ends with `<span>` + formatted send time + `</span></section>` + newline |
| `HtmlFormatProperties.OutgoingIgnoresSender` | fmt_html.go:80-81 | changing the sender's name does not change an outgoing message's fragment: the "you" container carries no sender label |
| `HtmlFormat.Content` | fmt_html.go:85-108 | exactly one branch is taken: a non-plain message's content is ` [` + type + ` message]` with the type recoverable from it; a plain message's content is empty exactly when it has no quote, edits, attachments or body, and ends with " " + body when the body is non-empty |
| `HtmlFormat.TypeNotice` | fmt_html.go:86 | the notice starts with ` [`, ends with ` message]`, and holds the type label unchanged between them |
| `HtmlFormatProperties.TypeNoticeOnly` | fmt_html.go:85-86 | when the type is neither "incoming" nor "outgoing", the content is exactly ` [<type> message]`, and two messages that differ only in body, quote, edits or attachments get the same fragment |
| `HtmlFormat.Details` | fmt_html.go:88-101 | the annotation list has one entry per condition that holds (quote present, edits non-empty, attachments non-empty), in the order quote note, "edited", attachment note, each at its fixed position |
| `HtmlFormatProperties.EditedIffEdits` | fmt_html.go:92-94 | "edited" is among the annotations if and only if the message has at least one edit |
| `HtmlFormat.QuoteNote` | fmt_html.go:90 | the quote annotation starts with "reply to " + the quoted author's name, ends with " on " + the short form of the quoted message's time, and has nothing between the two (its length is 13 plus theirs) |
| `HtmlFormat.AttachmentNote` | fmt_html.go:95-101 | one attachment gives "1 attachment"; n > 1 gives the canonical decimal numeral of n (digits, no leading zero, parsing back to n) followed by " attachments"; the note ends in "s" exactly when n > 1 |
| `Decimal.FromNat` | fmt_html.go:100 | the `%d` numeral of n is a non-empty digit string without a leading zero (except "0") whose value is n |
| `Decimal.FromNatParse` | fmt_html.go:100 | printing the value of any canonical numeral gives that numeral back, so the numeral is the unique canonical spelling of the count |
| `HtmlFormat.AnnotationGroup` | fmt_html.go:102-104 | the bracketed group is non-empty if and only if the annotation list is non-empty; it then starts with " [", ends with "]", and holds between the brackets exactly the entries joined by ", " |
| `Text.Join` | fmt_html.go:103 | like `strings.Join`, the join of no parts is empty, the join of one part is that part, and the join of two or more starts with the first part and the separator and ends with the last part |
| `Text.JoinSnoc` | fmt_html.go:103 | appending a part to a non-empty list appends the separator and that part to the join; with the empty and one-part cases this fixes the join of every list: the separator between neighbours and nowhere else |
| `HtmlFormatProperties.GroupOfOne` | fmt_html.go:102-104 | a single annotation is shown as " [" + annotation + "]", with no separator |
| `HtmlFormatProperties.GroupOfTwo` | fmt_html.go:102-104 | two annotations are shown as " [" + first + ", " + second + "]" |
| `HtmlFormatProperties.GroupOfThree` | fmt_html.go:102-104 | three annotations are shown as " [" + first + ", " + second + ", " + third + "]"; with the one- and two-entry cases this covers every list the annotation list can be |
| `HtmlFormatProperties.AnnotationOrderExample` | fmt_html.go:88-107 | a plain reply with one edit and two attachments gets exactly the group ` [reply to X on <time>, edited, 2 attachments]`, entries joined by ", " and not reordered, and its content is that group followed by the body text |
| `HtmlFormatProperties.PlainWithoutAnnotations` | fmt_html.go:88-107 | a plain message with no quote, edits or attachments has no bracketed group: its content is the body after one space, or nothing when the body is empty |
| `HtmlFormatProperties.BodyAfterAnnotations` | fmt_html.go:102-107 | a plain message's content is the content it would have with an empty body, then " " + body when the body is non-empty; that body-less content is empty exactly when there is nothing to annotate |
| `HtmlFormat.BodyText` | fmt_html.go:105-107 | the body text is empty exactly when the body is; otherwise it is one space followed by the body, verbatim |
| `HtmlFormat.Footer` | fmt_html.go:111-112 | the footer starts with `<span>` + the formatted send time, ends with `</span></section>` + newline, and adds exactly 24 characters to the time |
| `HtmlFormatProperties.ContainerOccurrences` | fmt_html.go:80-84 | for a sender name without `<`, each container, "you" or plain, opens exactly one `<section`, and none runs into the text after it |
| `Text.OccurrencesPositive` | fmt_html.go:80-84 | the count of `<section` openings used throughout is positive exactly when the pattern occurs at some index, which ties the count to actual occurrences in the text |
| `HtmlFormatProperties.FragmentOccurrences` | fmt_html.go:79-113 | the fragment of a message whose shown text holds no `<` contains exactly one `<section` opening |
| `HtmlFormatProperties.BodyOccurrences` | fmt_html.go:72-74 | the fragments of such messages contain exactly as many `<section` openings as there are messages |
| `HtmlFormatProperties.TailOccurrences` | fmt_html.go:65-68 | the closing holds no `<section` opening: each of its tags starts with `</` |
| `HtmlFormatProperties.RenderOccurrences` | fmt_html.go:70-75 | the document holds the preamble's own openings plus exactly one `<section` opening per such message; with no messages it holds only the preamble's |
| `HtmlFormatProperties.UnescapedBodyOpensSection` | fmt_html.go:105-107 | because the body is written unescaped, an outgoing message whose body is `<section>` makes a fragment with two `<section` openings |

## Left out

- Error reporting of the output stream (`errio.Writer`, `return ew.Err()`): that package is not part of this model. The model has no error value. `WriteMessages` only shows that every write is issued unconditionally, in order.
- `htmlFormatTime` and `textShortFormatTime`: they call the Go time library and depend on the local time zone. They are parameters, and no concrete date output is asserted, since it depends on the zone.
- `signal.Message`, `DisplayName()` and `IsOutgoing()`: these are the external data model. They appear as plain fields. Of `Edits` and `Attachments` only the lengths are kept.
- Preamble and closing: their text is included character for character. Of the closing, only its first character and its lack of `<section` openings are proved (`TailStart`, `TailOccurrences`). No lemma evaluates what the preamble contains.
- RenderOccurrences: states the section count relative to the preamble's own count instead of proving that count is zero. This is weaker than "exactly one `<section` per message". The preamble mentions `section` only as a CSS selector, but that was not proved.
- RenderOccurrences: assumes that no display name, type label, body, quoted author or formatted time contains `<` (`Inert`). This condition is sufficient, not necessary. Without escaping, shown text that contains `<section` adds openings (see `UnescapedBodyOpensSection`).
- Fixed-width integers: timestamps are constrained to the `int64` range. Counts are unbounded naturals, since `len()` never approaches the limit here.
