/** The part of the message store's data model that the HTML renderer reads.
    Display names are already resolved to strings and `IsOutgoing` to a flag;
    of the edit and attachment lists only their lengths are kept, since the
    renderer looks at nothing else in them. */
module Signal {

  /** Go's `int64`, the type of every millisecond timestamp. */
  type Int64 = x: int | -0x8000_0000_0000_0000 <= x < 0x8000_0000_0000_0000

  datatype Option<T> = None | Some(value: T)

  /** The message a reply quotes: the display name of its author and its
      identifier, which is its send time in milliseconds. */
  datatype Quote = Quote(author: string, id: Int64)

  datatype Message = Message(
    outgoing: bool,       // what `IsOutgoing()` reports
    kind: string,         // the free-form type label, `Type`
    sender: string,       // `Source.DisplayName()`
    body: string,         // `Body.Text`, possibly empty
    quote: Option<Quote>, // nil when the message is not a reply
    edits: nat,           // `len(Edits)`
    attachments: nat,     // `len(Attachments)`
    sent: Int64           // `TimeSent`, milliseconds since the epoch
  )
}
